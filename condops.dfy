/**
 * The conditional mutations of cycledata/cond_increase.go, cond_decrease.go,
 * cond_update.go, cond_slice.go and cond_map.go. Each one fetches the record
 * with `GetData`, reads one `MiscData` key, and either gives up (returns false,
 * changing nothing more than `GetData` did) or writes one new value under that
 * key and refreshes `UpdateTime`.
 *
 * The value an operation writes is a function of the record's bag (and, for
 * the cooldown variants, of its update time and the current time); the
 * methods apply that function to the record in place.
 */
module CondOps {
  import opened GoInt
  import opened Wrappers
  import opened Values
  import opened CycleTypes
  import opened Registry
  import opened CycleData

  // ---------------------------------------------------------------------------
  // The value each operation writes; None means the call returns false.
  // ---------------------------------------------------------------------------

  /** `IncreaseIfCondInt`: an absent key counts as int 0; a stored value must be exactly an int. */
  function IncreaseInt(misc: Misc, key: string, amount: Int64, cond: Int64 -> bool): (r: Option<Value>)
    ensures key !in misc ==> r == (if cond(0) then Some(VInt(amount)) else None)
    ensures key in misc ==> (r.Some? <==> misc[key].VInt? && cond(misc[key].i))
    ensures key in misc && r.Some? ==> r.value == VInt(Wrap64(misc[key].i + amount))
  {
    var current := if key in misc then misc[key] else VInt(0);
    if current.VInt? && cond(current.i) then Some(VInt(Wrap64(current.i + amount))) else None
  }

  /** `IncreaseIfCondInt32`: the same over int32, wrapping at 32 bits. */
  function IncreaseInt32(misc: Misc, key: string, amount: Int32, cond: Int32 -> bool): (r: Option<Value>)
    ensures key !in misc ==> r == (if cond(0) then Some(VInt32(amount)) else None)
    ensures key in misc ==> (r.Some? <==> misc[key].VInt32? && cond(misc[key].i32))
    ensures key in misc && r.Some? ==> r.value == VInt32(Wrap32(misc[key].i32 + amount))
  {
    var current := if key in misc then misc[key] else VInt32(0);
    if current.VInt32? && cond(current.i32) then Some(VInt32(Wrap32(current.i32 + amount))) else None
  }

  /** `IncreaseIfCondInt64`: the same over int64. */
  function IncreaseInt64(misc: Misc, key: string, amount: Int64, cond: Int64 -> bool): (r: Option<Value>)
    ensures key !in misc ==> r == (if cond(0) then Some(VInt64(amount)) else None)
    ensures key in misc ==> (r.Some? <==> misc[key].VInt64? && cond(misc[key].i64))
    ensures key in misc && r.Some? ==> r.value == VInt64(Wrap64(misc[key].i64 + amount))
  {
    var current := if key in misc then misc[key] else VInt64(0);
    if current.VInt64? && cond(current.i64) then Some(VInt64(Wrap64(current.i64 + amount))) else None
  }

  /** The operand `DecreaseIfEnoughInt` reads: a stored int, or an int64 converted to int. */
  function IntOperand(v: Value): (r: Option<Int64>)
    ensures r.Some? <==> v.VInt? || v.VInt64?
  {
    match v
    case VInt(i) => Option<Int64>.Some(i)
    case VInt64(i) => Option<Int64>.Some(i)
    case _ => None
  }

  /** The operand `DecreaseIfEnoughInt32` reads: an int32, or an int or int64 narrowed by `int32()`. */
  function Int32Operand(v: Value): (r: Option<Int32>)
    ensures r.Some? <==> IsIntegerKind(v)
    ensures r.Some? ==> r == ToInt32(v)
  {
    match v
    case VInt32(i) => Some(i)
    case VInt(i) => Some(Wrap32(i))
    case VInt64(i) => Some(Wrap32(i))
    case _ => None
  }

  /**
   * `DecreaseIfEnoughInt`: an absent key fails (no implicit zero), so does a
   * current value below `amount`; the result is stored as an int whatever
   * integer kind was read.
   */
  function DecreaseInt(misc: Misc, key: string, amount: Int64): (r: Option<Value>)
    ensures r.Some? <==> key in misc && IntOperand(misc[key]).Some? && IntOperand(misc[key]).value >= amount
    ensures r.Some? ==> r.value == VInt(Wrap64(IntOperand(misc[key]).value - amount))
  {
    if key !in misc then None
    else
      var current := IntOperand(misc[key]);
      if current.None? || current.value < amount then None
      else Some(VInt(Wrap64(current.value - amount)))
  }

  /** `DecreaseIfEnoughInt32`: as `DecreaseInt`, over the int32 operand; the result is stored as an int32. */
  function DecreaseInt32(misc: Misc, key: string, amount: Int32): (r: Option<Value>)
    ensures r.Some? <==> key in misc && Int32Operand(misc[key]).Some? && Int32Operand(misc[key]).value >= amount
    ensures r.Some? ==> r.value == VInt32(Wrap32(Int32Operand(misc[key]).value - amount))
  {
    if key !in misc then None
    else
      var current := Int32Operand(misc[key]);
      if current.None? || current.value < amount then None
      else Some(VInt32(Wrap32(current.value - amount)))
  }

  /** `UpdateIf`: `cond` sees nil for an absent key; on success the key holds exactly `newVal`. */
  function UpdateIf(misc: Misc, key: string, newVal: Value, cond: (Value, Value) -> bool): (r: Option<Value>)
    ensures r.Some? <==> cond(if key in misc then misc[key] else VNil, newVal)
    ensures r.Some? ==> r.value == newVal
  {
    var current := if key in misc then misc[key] else VNil;
    if cond(current, newVal) then Some(newVal) else None
  }

  /** `AppendToInt32SliceIf`: an absent key is the empty slice; there is no duplicate check. */
  function AppendSlice(misc: Misc, key: string, val: Int32, cond: seq<Int32> -> bool): (r: Option<Value>)
    ensures key !in misc ==> r == (if cond([]) then Some(VInt32Slice([val])) else None)
    ensures key in misc ==> (r.Some? <==> misc[key].VInt32Slice? && cond(misc[key].items))
    ensures key in misc && r.Some? ==> r.value == VInt32Slice(misc[key].items + [val])
  {
    var current := if key in misc then misc[key] else VInt32Slice([]);
    assert [] + [val] == [val];
    if current.VInt32Slice? && cond(current.items) then Some(VInt32Slice(current.items + [val])) else None
  }

  /** `s` with every occurrence of `x` left out, the rest in order. */
  function Without(s: seq<Int32>, x: Int32): (r: seq<Int32>)
    ensures |r| <= |s|
  {
    if s == [] then []
    else Without(s[..|s| - 1], x) + (if s[|s| - 1] == x then [] else [s[|s| - 1]])
  }

  /** Filtering keeps exactly the other elements, and changes nothing when `x` does not occur. */
  lemma {:induction false} WithoutMembers(s: seq<Int32>, x: Int32)
    ensures forall y :: y in Without(s, x) <==> y in s && y != x
    ensures x !in s ==> Without(s, x) == s
  {
    if s != [] {
      WithoutMembers(s[..|s| - 1], x);
      assert s == s[..|s| - 1] + [s[|s| - 1]];
    }
  }

  /** Filtering twice is filtering once. */
  lemma WithoutIdempotent(s: seq<Int32>, x: Int32)
    ensures Without(Without(s, x), x) == Without(s, x)
  {
    WithoutMembers(s, x);
    WithoutMembers(Without(s, x), x);
  }

  /** The filter loop of `RemoveFromInt32SliceIf`. */
  method FilterOut(s: seq<Int32>, x: Int32) returns (r: seq<Int32>)
    ensures r == Without(s, x)
  {
    r := [];
    var i := 0;
    while i < |s|
      invariant 0 <= i <= |s|
      invariant r == Without(s[..i], x)
    {
      assert s[..i + 1][..i] == s[..i];
      if s[i] != x {
        r := r + [s[i]];
      }
      i := i + 1;
    }
    assert s[..|s|] == s;
  }

  /** What a call can end in when the source may panic. */
  datatype Outcome = Rejected | Wrote(v: Value) | Panicked

  /**
   * `RemoveFromInt32SliceIf` as written: the new slice is made with capacity
   * len-1, which panics at run time when the stored slice is empty.
   */
  function RemoveSliceAsWritten(misc: Misc, key: string, val: Int32, cond: seq<Int32> -> bool): (r: Outcome)
    ensures r.Panicked? <==>
      key in misc && misc[key].VInt32Slice? && cond(misc[key].items) && |misc[key].items| == 0
    ensures r.Wrote? ==> key in misc && misc[key].VInt32Slice? && r.v == VInt32Slice(Without(misc[key].items, val))
  {
    if key !in misc || !misc[key].VInt32Slice? || !cond(misc[key].items) then Rejected
    else if |misc[key].items| - 1 < 0 then Panicked
    else Wrote(VInt32Slice(Without(misc[key].items, val)))
  }

  /** The panic, on a stored empty slice and a condition that accepts it. */
  lemma RemoveSliceAsWrittenPanics()
    ensures RemoveSliceAsWritten(map["ids" := VInt32Slice([])], "ids", 7, _ => true) == Panicked
  {
  }

  /**
   * `RemoveFromInt32SliceIf` as intended: an absent key, another kind or a
   * false `cond` fails; otherwise the slice is stored with every `val` left out
   * (true even when `val` was not there, and an empty slice stays empty).
   */
  function RemoveSlice(misc: Misc, key: string, val: Int32, cond: seq<Int32> -> bool): (r: Option<Value>)
    ensures r.Some? <==> key in misc && misc[key].VInt32Slice? && cond(misc[key].items)
    ensures r.Some? ==> r.value == VInt32Slice(Without(misc[key].items, val))
  {
    if key !in misc || !misc[key].VInt32Slice? || !cond(misc[key].items) then None
    else Some(VInt32Slice(Without(misc[key].items, val)))
  }

  /** The checks and the filter loop of `RemoveFromInt32SliceIf`, as intended. */
  method RemoveDecision(misc: Misc, key: string, val: Int32, cond: seq<Int32> -> bool) returns (out: Option<Value>)
    ensures out == RemoveSlice(misc, key, val, cond)
  {
    if key !in misc || !misc[key].VInt32Slice? || !cond(misc[key].items) {
      return None;
    }
    var kept := FilterOut(misc[key].items, val);
    out := Some(VInt32Slice(kept));
  }

  /** Away from the empty slice the intended operation is the written one: Rejected is None, written values agree. */
  lemma RemoveSliceAgrees(misc: Misc, key: string, val: Int32, cond: seq<Int32> -> bool)
    ensures !RemoveSliceAsWritten(misc, key, val, cond).Panicked? ==>
      RemoveSlice(misc, key, val, cond) ==
        (if RemoveSliceAsWritten(misc, key, val, cond).Wrote? then Some(RemoveSliceAsWritten(misc, key, val, cond).v) else None)
    ensures RemoveSliceAsWritten(misc, key, val, cond).Panicked? ==> RemoveSlice(misc, key, val, cond) == Some(VInt32Slice([]))
  {
  }

  /** The int32 map stored under `key`; an absent key gives the empty map. */
  function MapOrEmpty(misc: Misc, key: string): (r: Option<map<Int32, Int32>>)
    ensures key !in misc ==> r == Some(map[])
    ensures key in misc ==> (r.Some? <==> misc[key].VInt32Map?)
    ensures key in misc && r.Some? ==> r.value == misc[key].entries
  {
    if key !in misc then Some(map[])
    else if misc[key].VInt32Map? then Some(misc[key].entries)
    else None
  }

  /** `SetInInt32MapIf`: `cond` first, then the key must be new; exactly `k := v` is added. */
  function SetInMap(misc: Misc, key: string, k: Int32, v: Int32, cond: map<Int32, Int32> -> bool): (r: Option<Value>)
    ensures r.Some? <==> MapOrEmpty(misc, key).Some? && cond(MapOrEmpty(misc, key).value) && k !in MapOrEmpty(misc, key).value
    ensures r.Some? ==> r.value == VInt32Map(MapOrEmpty(misc, key).value[k := v])
  {
    var m := MapOrEmpty(misc, key);
    if m.None? || !cond(m.value) || k in m.value then None
    else Some(VInt32Map(m.value[k := v]))
  }

  /**
   * The "cooldown" test of the CD variants: with `limit > 0`, the call is
   * refused when MORE than `limit` seconds have passed since the last update.
   * `time.Since` saturates at the int64 range and `Duration(limit) * Second`
   * wraps; times are in nanoseconds.
   */
  function CooldownRefuses(updateTime: int, now: int, limit: Int64): bool
  {
    limit > 0 && Clamp64(now - updateTime) > Wrap64(limit * NANOS_PER_SECOND)
  }

  /** In range, the test is elapsed time against the limit; a non-positive limit never refuses. */
  lemma CooldownMeaning(updateTime: int, now: int, limit: Int64)
    ensures limit <= 0 ==> !CooldownRefuses(updateTime, now, limit)
    ensures 0 < limit <= 9_000_000_000 && IsInt64(now - updateTime) ==>
      (CooldownRefuses(updateTime, now, limit) <==> now - updateTime > limit * NANOS_PER_SECOND)
  {
  }

  /** `SetWithCDInInt32MapIf`: the kind check, then the cooldown, then as `SetInMap`. */
  function SetWithCD(misc: Misc, updateTime: int, now: int, key: string, k: Int32, v: Int32, limit: Int64,
                     cond: map<Int32, Int32> -> bool): (r: Option<Value>)
    ensures r.Some? <==> !CooldownRefuses(updateTime, now, limit) && SetInMap(misc, key, k, v, cond).Some?
    ensures r.Some? ==> r == SetInMap(misc, key, k, v, cond)
  {
    var m := MapOrEmpty(misc, key);
    if m.None? then None
    else if CooldownRefuses(updateTime, now, limit) then None
    else if !cond(m.value) || k in m.value then None
    else Some(VInt32Map(m.value[k := v]))
  }

  /** `RemoveWithCDFromInt32MapIf`: the field must exist as an int32 map; exactly `k` is deleted. */
  function RemoveWithCD(misc: Misc, updateTime: int, now: int, key: string, k: Int32, limit: Int64,
                        cond: map<Int32, Int32> -> bool): (r: Option<Value>)
    ensures r.Some? <==>
      key in misc && misc[key].VInt32Map? && !CooldownRefuses(updateTime, now, limit) &&
      cond(misc[key].entries) && k in misc[key].entries
    ensures r.Some? ==> r.value == VInt32Map(misc[key].entries - {k})
  {
    if key !in misc || !misc[key].VInt32Map? then None
    else if CooldownRefuses(updateTime, now, limit) then None
    else if !cond(misc[key].entries) || k !in misc[key].entries then None
    else Some(VInt32Map(misc[key].entries - {k}))
  }

  /** `UpdateInInt32MapIf`: the field must exist as an int32 map and already hold `k`. */
  function UpdateInMap(misc: Misc, key: string, k: Int32, v: Int32, cond: map<Int32, Int32> -> bool): (r: Option<Value>)
    ensures r.Some? <==> key in misc && misc[key].VInt32Map? && cond(misc[key].entries) && k in misc[key].entries
    ensures r.Some? ==> r.value.VInt32Map? && r.value.entries.Keys == misc[key].entries.Keys
    ensures r.Some? ==> r.value.entries[k] == v
    ensures r.Some? ==> forall j :: j in misc[key].entries && j != k ==> r.value.entries[j] == misc[key].entries[j]
  {
    if key !in misc || !misc[key].VInt32Map? then None
    else if !cond(misc[key].entries) || k !in misc[key].entries then None
    else Some(VInt32Map(misc[key].entries[k := v]))
  }

  // ---------------------------------------------------------------------------
  // Properties relating the operations.
  // ---------------------------------------------------------------------------

  /** Decreasing by a non-negative amount never wraps and never goes below zero. */
  lemma DecreaseStaysNonNegative(misc: Misc, key: string, amount: Int64)
    requires amount >= 0 && DecreaseInt(misc, key, amount).Some?
    ensures DecreaseInt(misc, key, amount).value.VInt?
    ensures 0 <= DecreaseInt(misc, key, amount).value.i == IntOperand(misc[key]).value - amount
  {
  }

  /** The int32 variant likewise, measured on the narrowed operand. */
  lemma DecreaseInt32StaysNonNegative(misc: Misc, key: string, amount: Int32)
    requires amount >= 0 && DecreaseInt32(misc, key, amount).Some?
    ensures DecreaseInt32(misc, key, amount).value.VInt32?
    ensures 0 <= DecreaseInt32(misc, key, amount).value.i32 == Int32Operand(misc[key]).value - amount
  {
  }

  /**
   * Increasing a non-negative int by a non-negative amount and decreasing it
   * again restores it, as long as the sum does not wrap.
   */
  lemma IncreaseThenDecrease(misc: Misc, key: string, amount: Int64, cond: Int64 -> bool)
    requires amount >= 0 && IncreaseInt(misc, key, amount, cond).Some?
    requires key in misc ==> misc[key].i >= 0 && IsInt64(misc[key].i + amount)
    ensures DecreaseInt(misc[key := IncreaseInt(misc, key, amount, cond).value], key, amount) ==
      Some(if key in misc then misc[key] else VInt(0))
  {
    var old_ := if key in misc then misc[key].i else 0;
    assert IncreaseInt(misc, key, amount, cond).value == VInt(old_ + amount);
    assert IntOperand(VInt(old_ + amount)) == Some(old_ + amount);
  }

  /** Appending grows the slice by one, keeps what was there, and does not look for duplicates. */
  lemma AppendGrows(misc: Misc, key: string, val: Int32, cond: seq<Int32> -> bool)
    requires key in misc && AppendSlice(misc, key, val, cond).Some?
    ensures |AppendSlice(misc, key, val, cond).value.items| == |misc[key].items| + 1
    ensures AppendSlice(misc, key, val, cond).value.items[..|misc[key].items|] == misc[key].items
    ensures val in misc[key].items ==> multiset(AppendSlice(misc, key, val, cond).value.items)[val] >= 2
  {
    var s := misc[key].items;
    var r := AppendSlice(misc, key, val, cond).value.items;
    assert r == s + [val];
    assert multiset(r) == multiset(s) + multiset{val};
  }

  /** Removing after appending a value that was not there gives back the original slice. */
  lemma AppendThenRemove(misc: Misc, key: string, val: Int32, cond: seq<Int32> -> bool)
    requires key in misc && AppendSlice(misc, key, val, cond).Some? && val !in misc[key].items
    ensures RemoveSlice(misc[key := AppendSlice(misc, key, val, cond).value], key, val, _ => true) == Some(misc[key])
  {
    var s := misc[key].items;
    var grown := misc[key := VInt32Slice(s + [val])];
    assert AppendSlice(misc, key, val, cond).value == VInt32Slice(s + [val]);
    assert (s + [val])[..|s + [val]| - 1] == s;
    WithoutMembers(s, val);
    assert Without(s + [val], val) == s;
    assert RemoveSlice(grown, key, val, _ => true) == Some(VInt32Slice(s));
  }

  /** Setting a new key and then removing it restores the map (without cooldown). */
  lemma SetThenRemove(misc: Misc, updateTime: int, now: int, key: string, k: Int32, v: Int32,
                      cond: map<Int32, Int32> -> bool)
    requires SetInMap(misc, key, k, v, cond).Some?
    ensures RemoveWithCD(misc[key := SetInMap(misc, key, k, v, cond).value], updateTime, now, key, k, 0, _ => true) ==
      Some(VInt32Map(MapOrEmpty(misc, key).value))
  {
    var m := MapOrEmpty(misc, key).value;
    assert m[k := v] - {k} == m;
  }

  /** Only the cooldown tells `SetWithCD` from `SetInMap`. */
  lemma SetWithCDIsGuardedSet(misc: Misc, updateTime: int, now: int, key: string, k: Int32, v: Int32, limit: Int64,
                              cond: map<Int32, Int32> -> bool)
    ensures !CooldownRefuses(updateTime, now, limit) ==>
      SetWithCD(misc, updateTime, now, key, k, v, limit, cond) == SetInMap(misc, key, k, v, cond)
    ensures limit <= 0 ==> SetWithCD(misc, updateTime, now, key, k, v, limit, cond) == SetInMap(misc, key, k, v, cond)
  {
  }

  /** The sequence the decrease tests run on an int: 100 - 30 is 70, 70 - 100 fails, an int64 50 - 20 is int 30. */
  lemma DecreaseIntVectors()
    ensures DecreaseInt(map["coins" := VInt(100)], "coins", 30) == Some(VInt(70))
    ensures DecreaseInt(map["coins" := VInt(70)], "coins", 100) == None
    ensures DecreaseInt(map["coins" := VInt64(50)], "coins", 20) == Some(VInt(30))
    ensures DecreaseInt(map[], "coins", 0) == None
  {
  }

  /** The int32 decrease tests, including the int and int64 operands; and a narrowing the tests do not show. */
  lemma DecreaseInt32Vectors()
    ensures DecreaseInt32(map["points" := VInt32(100)], "points", 50) == Some(VInt32(50))
    ensures DecreaseInt32(map["points" := VInt32(50)], "points", 60) == None
    ensures DecreaseInt32(map["points" := VInt(40)], "points", 30) == Some(VInt32(10))
    ensures DecreaseInt32(map["points" := VInt64(20)], "points", 15) == Some(VInt32(5))
    ensures DecreaseInt32(map["points" := VInt(0x1_0000_0005)], "points", 3) == Some(VInt32(2))
  {
  }

  /** Exact kind matching: an int64 is not an int to `IncreaseInt`, nor an int to `IncreaseInt32`. */
  lemma IncreaseKindVectors()
    ensures IncreaseInt(map["n" := VInt64(1)], "n", 1, _ => true) == None
    ensures IncreaseInt32(map["n" := VInt(1)], "n", 1, _ => true) == None
    ensures IncreaseInt32(map["n" := VInt32(0x7fff_ffff)], "n", 1, _ => true) == Some(VInt32(-0x8000_0000))
  {
  }

  /** The append tests: [] + 100, then + 200, then a duplicate 100 is appended too. */
  lemma AppendVectors()
    ensures AppendSlice(map[], "s", 100, _ => true) == Some(VInt32Slice([100]))
    ensures AppendSlice(map["s" := VInt32Slice([100])], "s", 200, _ => true) == Some(VInt32Slice([100, 200]))
    ensures AppendSlice(map["s" := VInt32Slice([100, 200])], "s", 100, _ => true) == Some(VInt32Slice([100, 200, 100]))
    ensures AppendSlice(map["s" := VString("not a slice")], "s", 400, _ => true) == None
  {
    assert [100] + [200] == [100, 200];
    assert [100, 200] + [100] == [100, 200, 100];
  }

  // ---------------------------------------------------------------------------
  // The operations on the handler's records.
  // ---------------------------------------------------------------------------

  /** The record `GetData` yields for (c, t, u): the stored one, or the one a loader or creator builds. */
  ghost function Found(h: Handler, reg: Tables, c: CycleType, t: TypeKey, u: UserID): Option<Seed>
    reads h, h.ServiceAt(c), h.CollectionAt(c, t), h.RecordAt(c, t, u), reg
  {
    if u in h.DataAt(c, t) then Some(h.DataAt(c, t)[u].Snapshot()) else Resolve(reg, c, t, u)
  }

  function MiscOf(s: Option<Seed>): Misc
  {
    if s.Some? then s.value.misc else map[]
  }

  function UpdateTimeOf(s: Option<Seed>): int
  {
    if s.Some? then s.value.updateTime else 0
  }

  /** A record after `MiscData[key] = v` and `UpdateTime = now`. */
  function Written(s: Seed, key: string, v: Value, now: int): Seed
  {
    s.(misc := s.misc[key := v], updateTime := now)
  }

  /**
   * The record of (c, t, u) after a conditional write: there is one exactly
   * when `GetData` found or built `before`; it holds `out` under `key` and
   * the new update time when the call succeeded, and is `before` otherwise.
   */
  ghost predicate Committed(h: Handler, c: CycleType, t: TypeKey, u: UserID, before: Option<Seed>, key: string,
                            out: Option<Value>, now: int, ok: bool)
    reads h, h.ServiceAt(c), h.CollectionAt(c, t), h.RecordAt(c, t, u)
  {
    ok == (before.Some? && out.Some?) &&
    (before.None? ==> u !in h.DataAt(c, t)) &&
    (before.Some? ==>
      u in h.DataAt(c, t) &&
      h.DataAt(c, t)[u].Snapshot() == if ok then Written(before.value, key, out.value, now) else before.value)
  }

  /**
   * What `GetData` does to the handler's maps: the service and collection of
   * (c, t) exist, nothing else is replaced, and at most `u` is added.
   */
  twostate predicate Touched(h: Handler, reg: Tables, c: CycleType, t: TypeKey, u: UserID)
    reads h, h.ServiceAt(c), h.CollectionAt(c, t), reg
  {
    h.services.Keys == old(h.services.Keys) + {c} &&
    (forall c' :: c' in old(h.services) ==> h.services[c'] == old(h.services[c'])) &&
    (c !in old(h.services) ==> h.services[c].defaultExpire == reg.DefaultExpireFor(c, t)) &&
    (c in old(h.services) ==> h.services[c].defaultExpire == old(h.services[c].defaultExpire)) &&
    h.CollectionsOf(c).Keys == old(h.CollectionsOf(c).Keys) + {t} &&
    (forall t' :: t' in old(h.CollectionsOf(c)) ==> h.CollectionsOf(c)[t'] == old(h.CollectionsOf(c))[t']) &&
    h.DataAt(c, t).Keys <= old(h.DataAt(c, t).Keys) + {u} &&
    (forall u' :: u' in old(h.DataAt(c, t)) ==> u' in h.DataAt(c, t) && h.DataAt(c, t)[u'] == old(h.DataAt(c, t))[u'])
  }

  /**
   * The `GetData` call every operation starts with, stated in terms of
   * `Found`: a record exactly when `Found` has one, stored under `u`, with
   * `Found`'s fields.
   */
  method FetchRecord(h: Handler, reg: Tables, c: CycleType, t: TypeKey, u: UserID) returns (pd: Record?)
    requires h.Valid()
    modifies h, h.ServiceAt(c), h.CollectionAt(c, t)
    ensures h.Valid() && Touched(h, reg, c, t, u)
    ensures pd == null <==> old(Found(h, reg, c, t, u)).None?
    ensures pd == null ==> u !in h.DataAt(c, t)
    ensures pd != null ==> pd in old(h.RecordAt(c, t, u)) || fresh(pd)
    ensures pd != null ==> u in h.DataAt(c, t) && h.DataAt(c, t)[u] == pd && pd.Snapshot() == old(Found(h, reg, c, t, u)).value
  {
    pd := h.GetData(c, t, u, reg);
  }

  /** The common tail: when the decision is a value, `update` writes it into the fetched record. */
  method Commit(h: Handler, c: CycleType, t: TypeKey, u: UserID, pd: Record, key: string, out: Option<Value>, now: int)
    returns (ok: bool)
    requires u in h.DataAt(c, t) && h.DataAt(c, t)[u] == pd
    modifies pd
    ensures Committed(h, c, t, u, Some(old(pd.Snapshot())), key, out, now, ok)
  {
    if out.None? {
      return false;
    }
    pd.Update(key, out.value, now);
    ok := true;
  }

  /** `IncreaseIfCondInt` */
  method IncreaseIfCondInt(h: Handler, reg: Tables, c: CycleType, t: TypeKey, u: UserID, key: string,
                           amount: Int64, cond: Int64 -> bool, now: int) returns (ok: bool)
    requires h.Valid()
    modifies h, h.ServiceAt(c), h.CollectionAt(c, t), h.RecordAt(c, t, u)
    ensures h.Valid() && Touched(h, reg, c, t, u)
    ensures var before := old(Found(h, reg, c, t, u));
      Committed(h, c, t, u, before, key, IncreaseInt(MiscOf(before), key, amount, cond), now, ok)
  {
    var pd := FetchRecord(h, reg, c, t, u);
    if pd == null {
      return false;
    }
    ok := Commit(h, c, t, u, pd, key, IncreaseInt(pd.misc, key, amount, cond), now);
  }

  /** `IncreaseIfCondInt32` */
  method IncreaseIfCondInt32(h: Handler, reg: Tables, c: CycleType, t: TypeKey, u: UserID, key: string,
                             amount: Int32, cond: Int32 -> bool, now: int) returns (ok: bool)
    requires h.Valid()
    modifies h, h.ServiceAt(c), h.CollectionAt(c, t), h.RecordAt(c, t, u)
    ensures h.Valid() && Touched(h, reg, c, t, u)
    ensures var before := old(Found(h, reg, c, t, u));
      Committed(h, c, t, u, before, key, IncreaseInt32(MiscOf(before), key, amount, cond), now, ok)
  {
    var pd := FetchRecord(h, reg, c, t, u);
    if pd == null {
      return false;
    }
    ok := Commit(h, c, t, u, pd, key, IncreaseInt32(pd.misc, key, amount, cond), now);
  }

  /** `IncreaseIfCondInt64` */
  method IncreaseIfCondInt64(h: Handler, reg: Tables, c: CycleType, t: TypeKey, u: UserID, key: string,
                             amount: Int64, cond: Int64 -> bool, now: int) returns (ok: bool)
    requires h.Valid()
    modifies h, h.ServiceAt(c), h.CollectionAt(c, t), h.RecordAt(c, t, u)
    ensures h.Valid() && Touched(h, reg, c, t, u)
    ensures var before := old(Found(h, reg, c, t, u));
      Committed(h, c, t, u, before, key, IncreaseInt64(MiscOf(before), key, amount, cond), now, ok)
  {
    var pd := FetchRecord(h, reg, c, t, u);
    if pd == null {
      return false;
    }
    ok := Commit(h, c, t, u, pd, key, IncreaseInt64(pd.misc, key, amount, cond), now);
  }

  /** `DecreaseIfEnoughInt` */
  method DecreaseIfEnoughInt(h: Handler, reg: Tables, c: CycleType, t: TypeKey, u: UserID, key: string,
                             amount: Int64, now: int) returns (ok: bool)
    requires h.Valid()
    modifies h, h.ServiceAt(c), h.CollectionAt(c, t), h.RecordAt(c, t, u)
    ensures h.Valid() && Touched(h, reg, c, t, u)
    ensures var before := old(Found(h, reg, c, t, u));
      Committed(h, c, t, u, before, key, DecreaseInt(MiscOf(before), key, amount), now, ok)
  {
    var pd := FetchRecord(h, reg, c, t, u);
    if pd == null {
      return false;
    }
    ok := Commit(h, c, t, u, pd, key, DecreaseInt(pd.misc, key, amount), now);
  }

  /** `DecreaseIfEnoughInt32` */
  method DecreaseIfEnoughInt32(h: Handler, reg: Tables, c: CycleType, t: TypeKey, u: UserID, key: string,
                               amount: Int32, now: int) returns (ok: bool)
    requires h.Valid()
    modifies h, h.ServiceAt(c), h.CollectionAt(c, t), h.RecordAt(c, t, u)
    ensures h.Valid() && Touched(h, reg, c, t, u)
    ensures var before := old(Found(h, reg, c, t, u));
      Committed(h, c, t, u, before, key, DecreaseInt32(MiscOf(before), key, amount), now, ok)
  {
    var pd := FetchRecord(h, reg, c, t, u);
    if pd == null {
      return false;
    }
    ok := Commit(h, c, t, u, pd, key, DecreaseInt32(pd.misc, key, amount), now);
  }

  /** `UpdateIf` (top-level; the pure decision is the function of the same name) */
  method UpdateIfCond(h: Handler, reg: Tables, c: CycleType, t: TypeKey, u: UserID, key: string,
                      newVal: Value, cond: (Value, Value) -> bool, now: int) returns (ok: bool)
    requires h.Valid()
    modifies h, h.ServiceAt(c), h.CollectionAt(c, t), h.RecordAt(c, t, u)
    ensures h.Valid() && Touched(h, reg, c, t, u)
    ensures var before := old(Found(h, reg, c, t, u));
      Committed(h, c, t, u, before, key, UpdateIf(MiscOf(before), key, newVal, cond), now, ok)
  {
    var pd := FetchRecord(h, reg, c, t, u);
    if pd == null {
      return false;
    }
    ok := Commit(h, c, t, u, pd, key, UpdateIf(pd.misc, key, newVal, cond), now);
  }

  /** `AppendToInt32SliceIf` */
  method AppendToInt32SliceIf(h: Handler, reg: Tables, c: CycleType, t: TypeKey, u: UserID, key: string,
                              val: Int32, cond: seq<Int32> -> bool, now: int) returns (ok: bool)
    requires h.Valid()
    modifies h, h.ServiceAt(c), h.CollectionAt(c, t), h.RecordAt(c, t, u)
    ensures h.Valid() && Touched(h, reg, c, t, u)
    ensures var before := old(Found(h, reg, c, t, u));
      Committed(h, c, t, u, before, key, AppendSlice(MiscOf(before), key, val, cond), now, ok)
  {
    var pd := FetchRecord(h, reg, c, t, u);
    if pd == null {
      return false;
    }
    ok := Commit(h, c, t, u, pd, key, AppendSlice(pd.misc, key, val, cond), now);
  }

  /** `RemoveFromInt32SliceIf`, as intended: an empty stored slice is stored back empty. */
  method RemoveFromInt32SliceIf(h: Handler, reg: Tables, c: CycleType, t: TypeKey, u: UserID, key: string,
                                val: Int32, cond: seq<Int32> -> bool, now: int) returns (ok: bool)
    requires h.Valid()
    modifies h, h.ServiceAt(c), h.CollectionAt(c, t), h.RecordAt(c, t, u)
    ensures h.Valid() && Touched(h, reg, c, t, u)
    ensures var before := old(Found(h, reg, c, t, u));
      Committed(h, c, t, u, before, key, RemoveSlice(MiscOf(before), key, val, cond), now, ok)
  {
    var pd := FetchRecord(h, reg, c, t, u);
    if pd == null {
      return false;
    }
    var out := RemoveDecision(pd.misc, key, val, cond);
    ok := Commit(h, c, t, u, pd, key, out, now);
  }

  /** `SetInInt32MapIf` */
  method SetInInt32MapIf(h: Handler, reg: Tables, c: CycleType, t: TypeKey, u: UserID, key: string,
                         k: Int32, v: Int32, cond: map<Int32, Int32> -> bool, now: int) returns (ok: bool)
    requires h.Valid()
    modifies h, h.ServiceAt(c), h.CollectionAt(c, t), h.RecordAt(c, t, u)
    ensures h.Valid() && Touched(h, reg, c, t, u)
    ensures var before := old(Found(h, reg, c, t, u));
      Committed(h, c, t, u, before, key, SetInMap(MiscOf(before), key, k, v, cond), now, ok)
  {
    var pd := FetchRecord(h, reg, c, t, u);
    if pd == null {
      return false;
    }
    ok := Commit(h, c, t, u, pd, key, SetInMap(pd.misc, key, k, v, cond), now);
  }

  /** `SetWithCDInInt32MapIf` */
  method SetWithCDInInt32MapIf(h: Handler, reg: Tables, c: CycleType, t: TypeKey, u: UserID, key: string,
                               k: Int32, v: Int32, limit: Int64, cond: map<Int32, Int32> -> bool, now: int)
    returns (ok: bool)
    requires h.Valid()
    modifies h, h.ServiceAt(c), h.CollectionAt(c, t), h.RecordAt(c, t, u)
    ensures h.Valid() && Touched(h, reg, c, t, u)
    ensures var before := old(Found(h, reg, c, t, u));
      Committed(h, c, t, u, before, key,
                SetWithCD(MiscOf(before), UpdateTimeOf(before), now, key, k, v, limit, cond), now, ok)
  {
    var pd := FetchRecord(h, reg, c, t, u);
    if pd == null {
      return false;
    }
    ok := Commit(h, c, t, u, pd, key, SetWithCD(pd.misc, pd.updateTime, now, key, k, v, limit, cond), now);
  }

  /** `RemoveWithCDFromInt32MapIf` */
  method RemoveWithCDFromInt32MapIf(h: Handler, reg: Tables, c: CycleType, t: TypeKey, u: UserID, key: string,
                                    k: Int32, limit: Int64, cond: map<Int32, Int32> -> bool, now: int)
    returns (ok: bool)
    requires h.Valid()
    modifies h, h.ServiceAt(c), h.CollectionAt(c, t), h.RecordAt(c, t, u)
    ensures h.Valid() && Touched(h, reg, c, t, u)
    ensures var before := old(Found(h, reg, c, t, u));
      Committed(h, c, t, u, before, key,
                RemoveWithCD(MiscOf(before), UpdateTimeOf(before), now, key, k, limit, cond), now, ok)
  {
    var pd := FetchRecord(h, reg, c, t, u);
    if pd == null {
      return false;
    }
    ok := Commit(h, c, t, u, pd, key, RemoveWithCD(pd.misc, pd.updateTime, now, key, k, limit, cond), now);
  }

  /** `UpdateInInt32MapIf` */
  method UpdateInInt32MapIf(h: Handler, reg: Tables, c: CycleType, t: TypeKey, u: UserID, key: string,
                            k: Int32, v: Int32, cond: map<Int32, Int32> -> bool, now: int) returns (ok: bool)
    requires h.Valid()
    modifies h, h.ServiceAt(c), h.CollectionAt(c, t), h.RecordAt(c, t, u)
    ensures h.Valid() && Touched(h, reg, c, t, u)
    ensures var before := old(Found(h, reg, c, t, u));
      Committed(h, c, t, u, before, key, UpdateInMap(MiscOf(before), key, k, v, cond), now, ok)
  {
    var pd := FetchRecord(h, reg, c, t, u);
    if pd == null {
      return false;
    }
    ok := Commit(h, c, t, u, pd, key, UpdateInMap(pd.misc, key, k, v, cond), now);
  }
}
