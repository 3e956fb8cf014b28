/**
 * The flush buffers of cache/ and cache/service/: a list buffer
 * (cache/cache_list_mgr.go, cache/service/cache_list_mgr.go) and a key ->
 * value buffer (cache/cache_key_mgr.go, cache/service/cache_key_mgr.go).
 * Each drains its contents to an optional handler on `flush` and has a
 * Start/Stop life cycle guarded by `started`. The generic and `interface{}`
 * versions behave alike; one class models each pair.
 */
module CacheBuf {
  import opened Wrappers

  /** A flush handler; what it does with a batch is outside the model. */
  datatype FlushHandler = FlushHandler(id: nat)

  /** A batch is handed over only when there is one and a handler to take it. */
  function Delivery<T>(data: seq<T>, handler: Option<FlushHandler>): (r: Option<seq<T>>)
    ensures r.Some? <==> |data| > 0 && handler.Some?
    ensures r.Some? ==> r.value == data
  {
    if |data| > 0 && handler.Some? then Some(data) else None
  }

  // ---------------------------------------------------------------------------
  // Life cycle.
  // ---------------------------------------------------------------------------

  /**
   * `started`, and whether the stop channel has been closed. The channel is
   * made once, in the constructor.
   */
  datatype Life = Life(started: bool, stopClosed: bool)

  const NewLife: Life := Life(false, false)

  /** `Stop` either returns with a new life or panics closing a closed channel. */
  datatype StopOutcome = Stopped(life: Life) | ClosePanics

  /** `Start` as written: the stop channel is left as it is. */
  function StartLifeAsWritten(l: Life): Life
  {
    if l.started then l else l.(started := true)
  }

  /** `Start` as intended: a restart comes with a fresh, open stop channel. */
  function StartLife(l: Life): (r: Life)
    ensures r.started && (l.started ==> r == l)
    ensures !l.started ==> !r.stopClosed
  {
    if l.started then l else Life(true, false)
  }

  /** `Stop`: a no-op when not started, otherwise close the channel and clear `started`. */
  function StopLife(l: Life): (r: StopOutcome)
    ensures !l.started ==> r == Stopped(l)
    ensures r.Stopped? ==> !r.life.started
    ensures r.ClosePanics? <==> l.started && l.stopClosed
  {
    if !l.started then Stopped(l)
    else if l.stopClosed then ClosePanics
    else Stopped(Life(false, true))
  }

  datatype LifeOp = StartOp | StopOp

  /** A sequence of Start/Stop calls from a new buffer; None once one panics. */
  function RunLife(ops: seq<LifeOp>, start: Life -> Life): Option<Life>
  {
    if ops == [] then Some(NewLife)
    else match RunLife(ops[..|ops| - 1], start)
      case None => None
      case Some(l) =>
        if ops[|ops| - 1] == StartOp then Some(start(l))
        else match StopLife(l)
          case ClosePanics => None
          case Stopped(l') => Some(l')
  }

  /** As written, Start, Stop, Start, Stop panics in the second Stop. */
  lemma RestartThenStopPanics()
    ensures RunLife([StartOp, StopOp, StartOp], StartLifeAsWritten) == Some(Life(true, true))
    ensures RunLife([StartOp, StopOp, StartOp, StopOp], StartLifeAsWritten) == None
  {
    assert [StartOp, StopOp, StartOp, StopOp][..3] == [StartOp, StopOp, StartOp];
    assert [StartOp, StopOp, StartOp][..2] == [StartOp, StopOp];
    assert [StartOp, StopOp][..1] == [StartOp];
    assert [StartOp][..0] == [];
  }

  /** A started buffer's stop channel is open. */
  predicate LifeValid(l: Life)
  {
    l.started ==> !l.stopClosed
  }

  /** With the intended `Start`, no sequence of Start/Stop calls panics. */
  lemma {:induction false} RunLifeNeverPanics(ops: seq<LifeOp>)
    ensures RunLife(ops, StartLife).Some? && LifeValid(RunLife(ops, StartLife).value)
  {
    if ops != [] {
      RunLifeNeverPanics(ops[..|ops| - 1]);
    }
  }

  /** Both are idempotent: a second Start, or a Stop when stopped, changes nothing. */
  lemma LifeIdempotent(l: Life)
    requires LifeValid(l)
    ensures StartLife(StartLife(l)) == StartLife(l)
    ensures StopLife(l).Stopped? && StopLife(StopLife(l).life) == StopLife(l)
  {
  }

  // ---------------------------------------------------------------------------
  // The list buffer.
  // ---------------------------------------------------------------------------

  datatype ListOp<T> = Push(x: T) | Flush

  /** Everything pushed, in order. */
  function Pushed<T>(ops: seq<ListOp<T>>): seq<T>
  {
    if ops == [] then []
    else match ops[|ops| - 1]
      case Push(x) => Pushed(ops[..|ops| - 1]) + [x]
      case Flush => Pushed(ops[..|ops| - 1])
  }

  /** The buffer after the operations. */
  function Buffered<T>(ops: seq<ListOp<T>>): seq<T>
  {
    if ops == [] then []
    else match ops[|ops| - 1]
      case Push(x) => Buffered(ops[..|ops| - 1]) + [x]
      case Flush => []
  }

  /** The batches the handler receives, in order. */
  function Delivered<T>(ops: seq<ListOp<T>>, handler: Option<FlushHandler>): seq<seq<T>>
  {
    if ops == [] then []
    else
      var prior := Delivered(ops[..|ops| - 1], handler);
      match ops[|ops| - 1]
      case Push(_) => prior
      case Flush =>
        match Delivery(Buffered(ops[..|ops| - 1]), handler)
        case None => prior
        case Some(b) => prior + [b]
  }

  function Concat<T>(bs: seq<seq<T>>): seq<T>
  {
    if bs == [] then [] else Concat(bs[..|bs| - 1]) + bs[|bs| - 1]
  }

  /**
   * With a handler nothing is lost, duplicated or reordered: the batches
   * delivered so far, followed by what is still buffered, are exactly the
   * items pushed, in push order.
   */
  lemma {:induction false} DeliveredInOrder<T>(ops: seq<ListOp<T>>, h: FlushHandler)
    ensures Concat(Delivered(ops, Some(h))) + Buffered(ops) == Pushed(ops)
  {
    if ops != [] {
      var init := ops[..|ops| - 1];
      DeliveredInOrder(init, h);
      match ops[|ops| - 1]
      case Push(x) =>
        assert Concat(Delivered(init, Some(h))) + (Buffered(init) + [x]) ==
          (Concat(Delivered(init, Some(h))) + Buffered(init)) + [x];
      case Flush =>
        var bs := Delivered(init, Some(h));
        if |Buffered(init)| > 0 {
          assert (bs + [Buffered(init)])[..|bs|] == bs;
        }
    }
  }

  /**
   * Without a handler every flush drops what was buffered: nothing is ever
   * delivered, a flush leaves the buffer empty, and what is buffered is just
   * the tail of the pushed items since the last flush.
   */
  lemma {:induction false} NoHandlerDeliversNothing<T>(ops: seq<ListOp<T>>)
    ensures Delivered(ops, None) == []
    ensures ops != [] && ops[|ops| - 1].Flush? ==> Buffered(ops) == []
    ensures |Buffered(ops)| <= |Pushed(ops)| && Pushed(ops)[|Pushed(ops)| - |Buffered(ops)|..] == Buffered(ops)
  {
    if ops != [] {
      NoHandlerDeliversNothing(ops[..|ops| - 1]);
    }
    BufferedIsPushedTail(ops);
  }

  /** The buffer is the tail of the pushed items that came after the last flush. */
  lemma {:induction false} BufferedIsPushedTail<T>(ops: seq<ListOp<T>>)
    ensures |Buffered(ops)| <= |Pushed(ops)| && Pushed(ops)[|Pushed(ops)| - |Buffered(ops)|..] == Buffered(ops)
  {
    if ops != [] {
      var init := ops[..|ops| - 1];
      BufferedIsPushedTail(init);
      var p, b := Pushed(init), Buffered(init);
      if ops[|ops| - 1].Push? {
        var x := ops[|ops| - 1].x;
        assert Pushed(ops) == p + [x] && Buffered(ops) == b + [x];
        assert (p + [x])[|p| - |b|..] == p[|p| - |b|..] + [x];
      } else {
        assert Buffered(ops) == [];
      }
    }
  }

  /** `CacheService`: a buffer of items pushed since the last flush. */
  class ListBuffer<T> {
    const handler: Option<FlushHandler>
    var items: seq<T>
    var life: Life

    predicate Valid()
      reads this
    {
      LifeValid(life)
    }

    /** `NewCacheService`; the interval only drives the ticker. */
    constructor (handler: Option<FlushHandler>)
      ensures this.handler == handler && items == [] && life == NewLife
    {
      this.handler := handler;
      items := [];
      life := NewLife;
    }

    method Push(x: T)
      modifies this
      ensures items == old(items) + [x] && life == old(life)
    {
      items := items + [x];
    }

    /** `flush`: take the whole buffer, reset it, and hand it to the handler. */
    method Flush() returns (batch: Option<seq<T>>)
      modifies this
      ensures items == [] && life == old(life)
      ensures batch == Delivery(old(items), handler)
    {
      var data := items;
      items := [];
      batch := None;
      if |data| > 0 && handler.Some? {
        batch := Some(data);
      }
    }

    method Start()
      modifies this
      ensures life == StartLife(old(life)) && items == old(items)
    {
      if life.started {
        return;
      }
      life := Life(true, false);
    }

    method Stop()
      requires Valid()
      modifies this
      ensures StopLife(old(life)).Stopped? && life == StopLife(old(life)).life && items == old(items)
    {
      if !life.started {
        return;
      }
      life := Life(false, true);
    }
  }

  // ---------------------------------------------------------------------------
  // The key -> value buffer.
  // ---------------------------------------------------------------------------

  /** `KVCacheService`: the latest value per key since the last flush. */
  class KeyBuffer<K(==), V> {
    const handler: Option<FlushHandler>
    var cache: map<K, V>
    var life: Life

    predicate Valid()
      reads this
    {
      LifeValid(life)
    }

    constructor (handler: Option<FlushHandler>)
      ensures this.handler == handler && cache == map[] && life == NewLife
    {
      this.handler := handler;
      cache := map[];
      life := NewLife;
    }

    /** `UpdateKeyValue`: last write wins for the key; the others stay. */
    method UpdateKeyValue(key: K, value: V)
      modifies this
      ensures cache == old(cache)[key := value] && life == old(life)
    {
      cache := cache[key := value];
    }

    /** `GetKeyValue`: the stored value, or nil. */
    method GetKeyValue(key: K) returns (value: Option<V>)
      ensures value == Lookup(cache, key)
    {
      if key in cache {
        value := Some(cache[key]);
      } else {
        value := None;
      }
    }

    /** `Push` does nothing and reports no error. */
    method Push(data: V) returns (err: Option<string>)
      ensures err == None
    {
      err := None;
    }

    /**
     * `flush`: every stored value once, in the map's iteration order (here
     * `order`, the keys as the loop visits them), then an empty map.
     */
    method Flush() returns (batch: Option<seq<V>>, order: seq<K>)
      modifies this
      ensures cache == map[] && life == old(life)
      ensures IsOrderOf(order, old(cache))
      ensures batch == Delivery(ValuesInOrder(old(cache), order), handler)
    {
      var data;
      data, order := Drain(cache);
      cache := map[];
      batch := None;
      if |data| > 0 && handler.Some? {
        batch := Some(data);
      }
    }

    method Start()
      modifies this
      ensures life == StartLife(old(life)) && cache == old(cache)
    {
      if life.started {
        return;
      }
      life := Life(true, false);
    }

    method Stop()
      requires Valid()
      modifies this
      ensures StopLife(old(life)).Stopped? && life == StopLife(old(life)).life && cache == old(cache)
    {
      if !life.started {
        return;
      }
      life := Life(false, true);
    }
  }

  /**
   * The loop of `flush`: visit every key of m once, in an order the map
   * chooses, collecting its value.
   */
  method Drain<K, V>(m: map<K, V>) returns (data: seq<V>, order: seq<K>)
    ensures IsOrderOf(order, m)
    ensures data == ValuesInOrder(m, order)
  {
    var keys := m.Keys;
    data := [];
    order := [];
    while keys != {}
      invariant keys !! Elems(order) && keys + Elems(order) == m.Keys
      invariant Distinct(order)
      invariant forall i :: 0 <= i < |order| ==> order[i] in m
      invariant data == ValuesInOrder(m, order)
      decreases |keys|
    {
      var k :| k in keys;
      Extend(m, order, k);
      data := data + [m[k]];
      order := order + [k];
      keys := keys - {k};
    }
  }

  function Lookup<K, V>(m: map<K, V>, key: K): (r: Option<V>)
    ensures r.Some? <==> key in m
    ensures r.Some? ==> r.value == m[key]
  {
    if key in m then Some(m[key]) else None
  }

  predicate Distinct<K(==)>(s: seq<K>)
  {
    forall i, j :: 0 <= i < j < |s| ==> s[i] != s[j]
  }

  /** The elements of a sequence, as a set. */
  function Elems<K>(s: seq<K>): set<K>
  {
    set k | k in s
  }

  lemma ElemsAppend<K>(s: seq<K>, x: K)
    ensures Elems(s + [x]) == Elems(s) + {x}
  {
  }

  /** One step of `Drain`: a new key keeps the order without repeats. */
  lemma Extend<K, V>(m: map<K, V>, order: seq<K>, k: K)
    requires Distinct(order) && k !in Elems(order)
    requires forall i :: 0 <= i < |order| ==> order[i] in m
    requires k in m
    ensures Distinct(order + [k]) && Elems(order + [k]) == Elems(order) + {k}
    ensures forall i :: 0 <= i < |order + [k]| ==> (order + [k])[i] in m
    ensures ValuesInOrder(m, order + [k]) == ValuesInOrder(m, order) + [m[k]]
  {
    ElemsAppend(order, k);
    assert (order + [k])[..|order|] == order;
  }

  /** `order` lists every key of m exactly once. */
  predicate IsOrderOf<K(==), V>(order: seq<K>, m: map<K, V>)
  {
    Distinct(order) && Elems(order) == m.Keys
  }

  /** The values of m taken in `order`. */
  function ValuesInOrder<K, V>(m: map<K, V>, order: seq<K>): (r: seq<V>)
    requires forall i :: 0 <= i < |order| ==> order[i] in m
    ensures |r| == |order|
  {
    if order == [] then [] else ValuesInOrder(m, order[..|order| - 1]) + [m[order[|order| - 1]]]
  }

  /** A flush hands over as many values as there were keys, each one the value of its key. */
  lemma FlushCountsEveryKey<K, V>(m: map<K, V>, order: seq<K>)
    requires IsOrderOf(order, m)
    ensures |ValuesInOrder(m, order)| == |m|
    ensures forall i :: 0 <= i < |order| ==> ValuesInOrder(m, order)[i] == m[order[i]]
  {
    DistinctCard(order);
    ValuesInOrderAt(m, order);
  }

  lemma {:induction false} ValuesInOrderAt<K, V>(m: map<K, V>, order: seq<K>)
    requires forall i :: 0 <= i < |order| ==> order[i] in m
    ensures forall i :: 0 <= i < |order| ==> ValuesInOrder(m, order)[i] == m[order[i]]
  {
    if order != [] {
      ValuesInOrderAt(m, order[..|order| - 1]);
    }
  }

  /** A sequence without repeats has as many elements as its set. */
  lemma {:induction false} DistinctCard<K>(s: seq<K>)
    requires Distinct(s)
    ensures |Elems(s)| == |s|
  {
    if s != [] {
      var init := s[..|s| - 1];
      DistinctCard(init);
      assert s == init + [s[|s| - 1]];
      ElemsAppend(init, s[|s| - 1]);
      assert s[|s| - 1] !in Elems(init);
    }
  }

  /** Updating a key and reading it back gives the new value; other keys read as before. */
  lemma UpdateThenGet<K, V>(m: map<K, V>, key: K, value: V, other: K)
    ensures Lookup(m[key := value], key) == Some(value)
    ensures other != key ==> Lookup(m[key := value], other) == Lookup(m, other)
  {
  }
}
