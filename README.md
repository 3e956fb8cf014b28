# go-cachedb in Dafny

A Dafny model of the core of go-cachedb, a Go library for game servers. It covers the following parts.

- **`cycledata`**: a per-period player-data store.
  - The global handler maps a cycle (daily, weekly, ...) to a service. A service maps a type key to a collection. A collection maps a user to a `PlayerData` record.
  - A record has an update time, an expiry and a dynamically typed `MiscData` bag.
  - Records are created lazily through registered loaders and creators.
  - Collections evict cold data, clean up expired records and flush to registered stores.
  - On top of the store sits a family of conditional mutations of one bag key: increase, decrease, update-if, slice append/remove, and int32-map set/update/remove with a "cooldown".
  - `cycledata/util.go` supplies the coercion helpers for the bag's values.
- **`float/float.go`**: exact decimal numbers. Each is an integer part, a signed fractional part and a place count, with exact `Add`, `Mul`, `String` and `StringFixed`.
- **`statistic`**: the statistic manager. It holds per-handler category lists and caches the answers of a query function. It also runs the worker -> static function pipeline.
- **`cache` and `cache/service`**:
  - two flush buffers: a list buffer and a key -> value buffer, each with a Start/Stop life cycle;
  - the time-format memo cache of `cache/cache_time.go`.
- **`timestate/daily.go`**: calendar arithmetic:
  - the Monday-based week of the month;
  - the `YYYY-MM-Wn` period key;
  - the day, week and month boundaries and the test that fires the period callbacks;
  - the table of daily callbacks at a fixed hour and minute.

Modules:

| file | module | models |
|---|---|---|
| wrappers.dfy | Wrappers | `Option` (a nil record, a nil func, an absent entry) |
| goint.dfy | GoInt | 32- and 64-bit two's complement wrap-around, and the saturation of `time.Time.Sub` |
| text.dfy | Text | `big.Int.String`, `%d`, `%0Nd`, and a digit reader used to state round trips |
| values.dfy | Values | the `interface{}` values of `MiscData` and the coercions of `cycledata/util.go` |
| cycletypes.dfy | CycleTypes | identifiers and registered-function shapes |
| registry.dfy | Registry | the loader, creator, store, clean-expired and default-expiry tables |
| cycledata.dfy | CycleData | `PlayerData`, `dataCollection`, `cycleService`, `cycleHandler`, `GetData`, `SetData` |
| condops.dfy | CondOps | the conditional mutations, as decision functions and as methods on the store |
| decimal.dfy | DecimalNum | `float/float.go` |
| statistic.dfy | Statistic | the statistic manager |
| cachebuf.dfy | CacheBuf | the list and key -> value flush buffers |
| timecache.dfy | TimeCache | `cache/cache_time.go` |
| daily.dfy | Daily | `timestate/daily.go` |

The model's conventions:

- The current time is a parameter wherever the source reads the clock.
- Registered functions are Dafny functions, or opaque tokens where only the call matters. Stores, clean-expired handlers, static functions and period callbacks are tokens, and the operations report the calls they make as a sequence. A static function also carries what it writes into the elements of the slice it is passed.

Where the code and its documentation or tests disagree, the model follows the code:

- `UpdateTime` is kept in Unix nanoseconds, not seconds. The code stores a full `time.Time`. The cooldown compares `time.Since(UpdateTime)` with `time.Duration(limit) * time.Second`.
- The cold-data threshold is one hour (`cycledata/cycledata.go:191`). Its comment says six hours.
- `cleanExpired` removes nothing unless a clean-expired handler is registered. With one, it removes every record whose `ExpireTime` is non-zero, whatever the time. Some tests in `cycledata/cycledata_test.go` (92-113, 141-164) expect a default policy instead.
- The tests at `cycledata/cycledata_test.go:127-138` and `:186-199` flush through a `storeData` table. Only `cycledata/register.go` writes that table, and nothing reads it. The model's stores are those `RegisterStorer` in `cycledata/cycledata_register.go` puts where `getStore` looks.
- `GetCategories` never applies the worker function. Its doc comment and the test at `statistic/statistic_test.go:59-85` suggest otherwise.
- `AppendToInt32SliceIf` does not check for duplicates. `RemoveFromInt32SliceIf` reports success even when the value was absent. Their doc comments say otherwise.
- `StringFixed(n)` with `n` below the number's own places is modelled as written: the value is not scaled down.
- `FormatDate` and `FormatHour` key their caches by the Unix second alone. The first caller's zone decides the cached text for that second (`TimeCache.CacheIgnoresZone`).

## Model

| member | source | states |
|---|---|---|
| GoInt.Wrap32 | cycledata/util.go:19-32 | `int32(x)`: the result lies in the int32 range and is congruent to x modulo 2^32; in-range values are unchanged |
| GoInt.Wrap64 | cycledata/cond_increase.go:44-46 | fixed-width int64 `+`/`-`: congruent to the unbounded result modulo 2^64, and unchanged when it fits |
| GoInt.Clamp64 | cycledata/cond_map.go:88 | `time.Since` saturates: in range the difference is exact; beyond it the result is the int64 minimum or maximum |
| GoInt.Wrap32Congruent | cycledata/util.go:19-32 | values that agree modulo 2^32 narrow to the same int32 |
| GoInt.Wrap32OfWrap64 | cycledata/cond_decrease.go:68-79 | narrowing an int64 result to int32 equals narrowing the unbounded value |
| Text.Pow10 | float/float.go:132 | `big.Int.Exp(10, k)` is at least 1; it is 1 for k <= 0 |
| Text.NatToStringRoundTrip | float/float.go:114-116 | reading back the decimal text of n gives n |
| Text.NatToStringLength | float/float.go:118-120 | the text of n fits in p characters exactly when n < 10^p |
| Text.PadZerosValue | float/float.go:118-120 | left padding with '0' keeps the digits' value |
| Text.FormatZeroPadded | timestate/daily.go:258 | `%0Nd`: defined by its body (a sign, then the digits left-padded with '0' to the width); `Text.PadZerosValue` and `Daily.PeriodKeyRoundTrip` state that the padded text reads back to the number |
| Values.ToInt | cycledata/util.go:4-17 | accepts exactly int, int32, int64 and float64; integers keep their value |
| Values.ToInt32 | cycledata/util.go:19-32 | accepts the same kinds; int32 is returned as is, wider kinds are narrowed |
| Values.ToInt64 | cycledata/util.go:34-47 | accepts the same kinds; integers are widened without change |
| Values.ToFloat64Accepts | cycledata/util.go:50-65 | accepts exactly float64, float32, int, int64 and int32 |
| Values.CoercionsAgree | cycledata/util.go:4-47 | the three integer coercions accept the same values; toInt32 is toInt narrowed, toInt64 is toInt |
| Values.ToInt32Slice | cycledata/util.go:67-91 | a []int32 comes back as is; a []interface{} is converted element by element, same length and order, and fails as a whole if one element is not numeric; any other kind fails |
| Values.CopyMap | cycledata/util.go:93-99 | the copy has exactly the source's keys and values |
| Registry.Insert | cycledata/cycledata_register.go:7-12 | registration creates the cycle's inner table only when missing; the types already there keep their entries |
| Registry.LookupInsert | cycledata/cycledata_register.go:33-43 | after registering f for (c, t), the lookup of (c, t) is f; every other (cycle, type) reads as before; re-registering replaces |
| Registry.Tables.constructor | cycledata/cycledata.go:62-67 | every table starts empty |
| Registry.Tables.GetLoader | cycledata/cycledata.go:547-552 | an unregistered cycle or type yields nil |
| Registry.Tables.GetCreator | cycledata/cycledata.go:557-562 | an unregistered cycle or type yields nil |
| Registry.Tables.GetStore | cycledata/cycledata.go:568-575 | an unregistered cycle or type yields nil |
| Registry.Tables.GetCleanExpired | cycledata/cycledata.go:580-585 | an unregistered cycle or type yields nil |
| Registry.Tables.RegisterLoader | cycledata/cycledata_register.go:7-12 | getLoader(c, t) is now f; every other loader and every other table stays as it was |
| Registry.Tables.RegisterCreator | cycledata/cycledata_register.go:18-23 | getCreator(c, t) is now f; everything else stays |
| Registry.Tables.RegisterStorer | cycledata/cycledata_register.go:33-43 | getStore(c, t) is now f; everything else stays |
| Registry.Tables.RegisterCleanExpired | cycledata/cycledata_register.go:48-53 | getCleanExpired(c, t) is now f; everything else stays |
| Registry.Tables.RegisterDefaultExpireFunc | cycledata/cycledata_expire_time.go:53-84 | the expiry function of (c, t) is now f, so `DefaultExpireFor(c, t)` is f's result, or 0 when f is nil; every other key keeps its default expiry, and the other tables stay |
| CycleData.Record.Update | cycledata/cycledata.go:84-89 | exactly one bag entry is set and the update time is refreshed |
| CycleData.Resolve | cycledata/cycledata.go:128-145 | on a miss the loader's record wins when the loader exists and returns one; the creator is consulted only otherwise; with neither, no record |
| CycleData.Collection.constructor | cycledata/cycledata.go:103-107 | a new collection is empty |
| CycleData.Collection.Get | cycledata/cycledata.go:112-146 | a stored record is returned as is and nothing changes; on a miss the resolved record is stored under the user and returned; with none, nil and no change |
| CycleData.Collection.Set | cycledata/cycledata.go:151-172 | an existing record gets the bag wholesale and keeps its times; a missing one is built by the creator only, given the bag, stored, and true is returned; without a creator result, false and no change |
| CycleData.Collection.CleanCoolData | cycledata/cycledata.go:177-207 | with a store, exactly the records updated before now - 1 hour are handed to it, once each, and evicted; the rest stay; without a store nothing changes |
| CycleData.Collection.CleanExpired | cycledata/cycledata.go:212-245 | with a handler, exactly the records with non-zero expiry are handed to it, once each, and deleted, whatever now is; without one nothing is removed |
| CycleData.Collection.FlushAll | cycledata/cycledata.go:250-266 | with a store every record is handed to it exactly once and nothing is evicted; without one nothing is stored |
| CycleData.Service.constructor | cycledata/cycledata.go:281-286 | no collections, and the given default expiry |
| CycleData.Service.GetCollection | cycledata/cycledata.go:291-310 | the stored collection is returned unchanged; otherwise a new empty one is stored and returned, and the other types keep theirs |
| CycleData.Service.Flush | cycledata/cycledata.go:315-322 | nothing is stored when the collection is missing or has no store; otherwise every record once; nothing is created |
| CycleData.Service.FlushAll | cycledata/cycledata.go:327-334 | (type, user) is flushed exactly when the type has a store and holds that user, each pair once |
| CycleData.Service.CleanExpiredOne | cycledata/cycledata.go:456-458 | one turn of the cleanup loop: that collection is cleaned, and the trace grows by exactly its expired users |
| CycleData.Service.CleanExpired | cycledata/cycledata.go:437-459 | every collection of the cycle is cleaned as `cleanExpired` does; the trace holds exactly the removed (type, user) pairs, each once |
| CycleData.Service.CleanCoolOne | cycledata/cycledata.go:490-492 | one turn of the cold-data loop: that collection is evicted, and the trace grows by exactly its stored users |
| CycleData.Service.CleanCool | cycledata/cycledata.go:471-493 | every collection of the cycle is evicted as `cleanCoolData` does; the trace holds exactly the stored pairs, each once |
| CycleData.Handler.constructor | cycledata/cycledata.go:348-354 | no services |
| CycleData.Handler.GetService | cycledata/cycledata.go:498-517 | the stored service is returned unchanged, keeping its own default expiry; otherwise a new one with the given expiry is stored |
| CycleData.Handler.GetData | cycledata/getdata.go:21-26 | the service and collection of (cycle, type) exist afterwards even when no record is found; a stored record is returned as is; on a miss the resolved record is stored and returned; no other cycle or type changes |
| CycleData.Handler.GetDataValue | cycledata/getdata.go:28-38 | a copy equal to the record's bag, or an empty map when no record is found; the store is left as `GetData` leaves it: the service and the collection exist, a resolved record is stored on a miss, and other cycles and types are untouched |
| CycleData.Handler.SetData | cycledata/cycledata_setdata.go:10-15 | `dataCollection.set` on the collection of (cycle, type), which exists afterwards; a new service gets the registered default expiry, an existing one keeps its own; other cycles' services and other types' collections are untouched |
| CycleData.Handler.Flush | cycledata/cycledata.go:522-525 | the service is created if missing; the collection is flushed only when it exists and has a store |
| CycleData.Handler.FlushAll | cycledata/cycledata.go:530-537 | (cycle, type, user) is flushed exactly when that type has a store and holds the user, each once |
| CycleData.Handler.CleanExpiredDataByType | cycledata/cycledata.go:395-418 | the collection of (cycle, type) is cleaned as `cleanExpired` does; nothing is created when it is missing |
| CycleData.Handler.CleanExpiredData | cycledata/cycledata.go:437-459 | every collection of the cycle is cleaned; the trace holds exactly the removed pairs |
| CycleData.Handler.CleanCoolData | cycledata/cycledata.go:471-493 | every collection of the cycle is evicted; the trace holds exactly the stored pairs |
| CycleData.Handler.SweepTick | cycledata/cycledata.go:368-385 | one hourly tick runs `cleanExpiredData` for every cycle; cold-data eviction is not part of it |
| CondOps.IncreaseInt | cycledata/cond_increase.go:22-47 | an absent key counts as 0; only a stored int is accepted (an int64 fails); the write is old + amount wrapped to 64 bits, when cond(old) holds |
| CondOps.IncreaseInt32 | cycledata/cond_increase.go:55-80 | the same over int32, wrapping at 32 bits |
| CondOps.IncreaseInt64 | cycledata/cond_increase.go:88-113 | the same over int64 |
| CondOps.IntOperand | cycledata/cond_decrease.go:29-37 | the decrease reads a stored int or int64 and nothing else |
| CondOps.Int32Operand | cycledata/cond_decrease.go:68-79 | the int32 decrease reads int32, or an int or int64 narrowed by `int32()` |
| CondOps.DecreaseInt | cycledata/cond_decrease.go:14-46 | succeeds exactly when the key is present with an accepted operand of at least amount; the result is stored as an int |
| CondOps.DecreaseInt32 | cycledata/cond_decrease.go:54-88 | the same over the narrowed operand; the result is stored as an int32 |
| CondOps.UpdateIf | cycledata/cond_update.go:17-38 | cond sees nil for an absent key; on success the key holds exactly the new value |
| CondOps.AppendSlice | cycledata/cond_slice.go:15-47 | an absent key is the empty slice; another kind fails; on success the slice is old ++ [val] |
| CondOps.WithoutMembers | cycledata/cond_slice.go:82-88 | the filtered slice holds exactly the elements other than val, and is the slice itself when val does not occur |
| CondOps.WithoutIdempotent | cycledata/cond_slice.go:82-88 | filtering twice is filtering once |
| CondOps.FilterOut | cycledata/cond_slice.go:82-88 | the filter loop keeps every element other than val, in order |
| CondOps.RemoveSliceAsWritten | cycledata/cond_slice.go:57-92 | as written: panics exactly on a stored empty slice that passes cond; otherwise writes the filtered slice |
| CondOps.RemoveSliceAsWrittenPanics | cycledata/cond_slice.go:82 | an empty stored slice with an accepting cond panics |
| CondOps.RemoveSlice | cycledata/cond_slice.go:57-92 | as intended: fails for an absent key, another kind or a false cond; otherwise stores the slice with every val left out, and succeeds even if val was absent |
| CondOps.RemoveDecision | cycledata/cond_slice.go:66-88 | the checks and the filter loop compute the intended decision |
| CondOps.RemoveSliceAgrees | cycledata/cond_slice.go:57-92 | the written and the intended operation agree except on the panic, where the intended one stores the empty slice |
| CondOps.MapOrEmpty | cycledata/cond_map.go:24-36 | an absent field is the empty map; a field of another kind fails |
| CondOps.SetInMap | cycledata/cond_map.go:15-52 | cond is checked, then key absence; on success exactly key -> val is added |
| CondOps.CooldownMeaning | cycledata/cond_map.go:87-91 | a limit <= 0 never refuses; in range, the call is refused exactly when more than limit seconds have passed since the last update |
| CondOps.SetWithCD | cycledata/cond_map.go:63-107 | succeeds exactly when the cooldown does not refuse and the plain set succeeds, with the same result |
| CondOps.RemoveWithCD | cycledata/cond_map.go:118-159 | the field must exist as an int32 map, the cooldown pass, cond hold and key be present; exactly key is deleted |
| CondOps.UpdateInMap | cycledata/cond_map.go:169-203 | the field must exist as an int32 map holding key; the keys stay the same and only key's value changes |
| CondOps.DecreaseStaysNonNegative | cycledata/cond_decrease.go:39-45 | a successful decrease by a non-negative amount never wraps and never goes below zero |
| CondOps.DecreaseInt32StaysNonNegative | cycledata/cond_decrease.go:81-87 | the same for the int32 variant |
| CondOps.IncreaseThenDecrease | cycledata/cond_increase.go:22-47 | increasing a non-negative int and then decreasing it by the same amount restores it, when the sum fits |
| CondOps.AppendGrows | cycledata/cond_slice.go:43-46 | an append adds one element at the end, keeps the prefix, and appends a duplicate too |
| CondOps.AppendThenRemove | cycledata/cond_slice.go:43-91 | removing a freshly appended value that was absent gives back the original slice |
| CondOps.SetThenRemove | cycledata/cond_map.go:48-158 | setting a new key and then removing it without a cooldown restores the map |
| CondOps.SetWithCDIsGuardedSet | cycledata/cond_map.go:87-91 | only the cooldown tells the CD set from the plain set; a limit <= 0 makes them equal |
| CondOps.DecreaseIntVectors | cycledata/cycledata_test.go:289-318 | 100 - 30 is 70, 70 - 100 fails, an int64 50 - 20 is the int 30, an absent key fails |
| CondOps.DecreaseInt32Vectors | cycledata/cycledata_test.go:321-378 | the int32 decrease tests, including int and int64 operands, and a narrowing the tests do not show |
| CondOps.IncreaseKindVectors | cycledata/cond_increase.go:34-37 | kind matching is exact, and the int32 increase wraps at the maximum |
| CondOps.AppendVectors | cycledata/cycledata_test.go:431-495 | [] + 100, then + 200, then a duplicate 100 is appended; a non-slice value fails |
| CondOps.FetchRecord | cycledata/getdata.go:21-26 | the `GetData` every operation starts with: a record exactly when one is stored or can be built |
| CondOps.Commit | cycledata/cond_update.go:35-37 | on a decision the record's key is written and its update time set; otherwise the record is unchanged |
| CondOps.IncreaseIfCondInt | cycledata/cond_increase.go:22-47 | false when no record is found; otherwise the record holds `IncreaseInt`'s value and the new time on success and is unchanged on failure |
| CondOps.IncreaseIfCondInt32 | cycledata/cond_increase.go:55-80 | the same with `IncreaseInt32` |
| CondOps.IncreaseIfCondInt64 | cycledata/cond_increase.go:88-113 | the same with `IncreaseInt64` |
| CondOps.DecreaseIfEnoughInt | cycledata/cond_decrease.go:14-46 | the same with `DecreaseInt` |
| CondOps.DecreaseIfEnoughInt32 | cycledata/cond_decrease.go:54-88 | the same with `DecreaseInt32` |
| CondOps.UpdateIfCond | cycledata/cond_update.go:17-38 | the same with `UpdateIf`; a failed call may still have created the record |
| CondOps.AppendToInt32SliceIf | cycledata/cond_slice.go:15-47 | the same with `AppendSlice` |
| CondOps.RemoveFromInt32SliceIf | cycledata/cond_slice.go:57-92 | the same with the intended `RemoveSlice` |
| CondOps.SetInInt32MapIf | cycledata/cond_map.go:15-52 | the same with `SetInMap` |
| CondOps.SetWithCDInInt32MapIf | cycledata/cond_map.go:63-107 | the same with `SetWithCD`, against the record's update time |
| CondOps.RemoveWithCDFromInt32MapIf | cycledata/cond_map.go:118-159 | the same with `RemoveWithCD` |
| CondOps.UpdateInInt32MapIf | cycledata/cond_map.go:169-203 | the same with `UpdateInMap` |
| DecimalNum.ToScaledIntValue | float/float.go:62-73 | at or above its own places the scaled value is multiplied up by 10^(scale - places); below them it is not scaled down |
| DecimalNum.ToScaledInt | float/float.go:62-73 | `toScaledInt`: defined by its body; `DecimalNum.ToScaledIntValue` states its value |
| DecimalNum.FromScaledInt | float/float.go:75-94 | the split keeps the requested places |
| DecimalNum.FromScaledIntSplit | float/float.go:75-94 | integer * 10^p + decimal is the value, \|decimal\| < 10^p, and both parts take the value's sign (truncation toward zero) |
| DecimalNum.FromScaledOfScaled | float/float.go:75-94 | a well-formed decimal is recovered from its scaled value |
| DecimalNum.Add | float/float.go:96-102 | the sum has the larger place count |
| DecimalNum.AddScaled | float/float.go:96-102 | the sum is well formed and its scaled value is the sum of the operands at its places |
| DecimalNum.AddExact | float/float.go:96-102 | the sum stands for the exact sum of the numbers |
| DecimalNum.AddCommutes | float/float.go:96-102 | addition does not depend on the order of its operands |
| DecimalNum.Mul | float/float.go:104-110 | the product has the sum of the place counts |
| DecimalNum.MulScaled | float/float.go:104-110 | the product is well formed and its scaled value is the product of the scaled values |
| DecimalNum.MulExact | float/float.go:104-110 | the product stands for the exact product of the numbers |
| DecimalNum.ScaledUpSameValue | float/float.go:62-73 | a decimal scaled to more places stands for the same number |
| DecimalNum.ZeroPad | float/float.go:118-120 | the padding loop prepends '0' until the text is n long |
| DecimalNum.TextAgrees | float/float.go:113-127 | the written and the intended `String` agree whenever the integer part carries the sign or the value is not negative |
| DecimalNum.TextAsWritten | float/float.go:113-127 | `String` as written: defined by its body; `DecimalNum.TextAgrees` states where it is right and `DecimalNum.TextAsWrittenLosesSign` where it drops the sign |
| DecimalNum.DecimalText | float/float.go:113-127 | `String` as intended: defined by its body; `DecimalNum.TextRoundTrip` and `DecimalNum.TextInjective` state that it reads back to the decimal |
| DecimalNum.String | float/float.go:113-127 | `String` yields the intended text |
| DecimalNum.TextRoundTrip | float/float.go:113-127 | reading back the intended text gives the decimal itself (with one place when it had none) |
| DecimalNum.TextInjective | float/float.go:113-127 | two well-formed decimals with the same places and the same text are equal |
| DecimalNum.TextAsWrittenLosesSign | float/float.go:114 | as written, -0.5 prints "0.5", the text of 0.5 |
| DecimalNum.FixedTextAgrees | float/float.go:130-142 | the written and the intended `StringFixed` agree on values that are not negative |
| DecimalNum.ScaledTextAgrees | float/float.go:135-141 | the Euclidean split and the intended split print alike for non-negative values |
| DecimalNum.ScaledTextAsWritten | float/float.go:132-141 | the Euclidean `DivMod` split of `StringFixed` as written: defined by its body; `DecimalNum.ScaledTextAgrees` states where it is right |
| DecimalNum.FixedTextAsWritten | float/float.go:130-142 | `StringFixed` as written: defined by its body; `DecimalNum.FixedTextAgrees` states where it is right and `DecimalNum.FixedTextAsWrittenFloors` where it floors |
| DecimalNum.ScaledText | float/float.go:132-141 | the intended split, with the sign printed once: defined by its body; `DecimalNum.ScaledTextRoundTrip` states that it reads back to the scaled value |
| DecimalNum.FixedText | float/float.go:130-142 | `StringFixed` as intended: defined by its body; `DecimalNum.FixedTextRoundTrip` states that it reads back to the decimal |
| DecimalNum.ScaledString | float/float.go:135-141 | the digits and padding loop yield the intended text of the scaled value |
| DecimalNum.StringFixed | float/float.go:130-142 | `StringFixed(n)` yields the intended text |
| DecimalNum.ScaledTextRoundTrip | float/float.go:130-142 | reading back the text of v at n places gives the split `fromScaledInt` makes of v |
| DecimalNum.FixedTextRoundTrip | float/float.go:130-142 | for n >= 1 and n at least the decimal's places, the text reads back to n places and the same number |
| DecimalNum.FixedTextAsWrittenFloors | float/float.go:135 | as written, -1.5 at one place prints "-2.5" |
| DecimalNum.OneAndOne | float/float_test.go:11 | "1" + "1" and "1" * "1" |
| DecimalNum.NoPlacesText | float/float_test.go:11 | integers print with ".0" |
| DecimalNum.PiAndMore | float/float_test.go:12 | "3.14" + "3.6666" is 6.8066 and the product 11.513124 |
| DecimalNum.PiAndMoreText | float/float_test.go:12 | the sum prints "6.8066" |
| DecimalNum.NegativeOperand | float/float_test.go:14 | "-1.5" + "2.5" is 1.0 and the product -3.75 |
| DecimalNum.NegativeOperandText | float/float_test.go:14 | they print "1.0" and "-3.75" |
| Statistic.Touch | statistic/statistic_register_api.go:9-16 | the handler's entry is set and created when missing; other handlers keep theirs |
| Statistic.AppendCategories | statistic/statistic_register_api.go:5-20 | registration creates the handler's entry when missing |
| Statistic.ResetCategories | statistic/statistic_register_api.go:24-39 | the same for the reset |
| Statistic.SetWorker | statistic/statistic_register_api.go:49-61 | the same for the worker function |
| Statistic.SetStatic | statistic/statistic_register_api.go:64-76 | the same for the static function |
| Statistic.AppendCategoriesLists | statistic/statistic_register_api.go:5-20 | the list of (h, t) grows by exactly the categories at its end; every other list and every function stays |
| Statistic.ResetCategoriesLists | statistic/statistic_register_api.go:24-39 | the list of (h, t) becomes the categories; nothing else changes |
| Statistic.ResetOverridesAppend | statistic/statistic_register_api.go:19-38 | a reset after appends leaves the new list; appends after a reset extend it |
| Statistic.RegisterCreatesEntry | statistic/statistic_register_api.go:9-16 | on an unknown handler each registration creates an entry holding only what it registered |
| Statistic.SetFuncKeepsLists | statistic/statistic_register_api.go:49-76 | setting the worker or static function changes only that field of that handler; lists stay |
| Statistic.QueryFuncLastWins | statistic/statistic_register_api.go:42-46 | last write wins per handler; other handlers keep theirs |
| Statistic.CacheQueried | statistic/statistic_worker_api.go:41-53 | caching creates the entry when missing |
| Statistic.GetStaticHit | statistic/statistic_worker_api.go:17-21 | a non-empty stored list is returned without a query and without a change |
| Statistic.GetWithoutQuery | statistic/statistic_worker_api.go:28-31 | with nothing stored and no query function: nil and no change |
| Statistic.GetEmptyAnswer | statistic/statistic_worker_api.go:33-36 | an empty query answer: nil and nothing cached |
| Statistic.GetCachesAnswer | statistic/statistic_worker_api.go:41-53 | a non-empty answer with no list for the type is cached; the next call returns it without a query |
| Statistic.GetKeepsEmptyList | statistic/statistic_worker_api.go:41-53 | an empty list already stored is never replaced, so every later call queries again |
| Statistic.GetOnlyCaches | statistic/statistic_worker_api.go:11-54 | `GetCategories` changes no other list and no function |
| Statistic.RegisterThenGet | statistic/statistic_test.go:9-25 | registered categories are what the next `GetCategories` returns, without a query |
| Statistic.GetIgnoresWorker | statistic/statistic_worker_api.go:11-54 | the worker function never affects `GetCategories` |
| Statistic.ApplyKnownHandler | statistic/statistic_worker_api.go:60-114 | for a known handler nothing is queried; the static function is called exactly when it is set and the list non-empty, on the worker's output or else the list itself |
| Statistic.ApplyWritesStored | statistic/statistic_worker_api.go:97-113 | beyond the fallback only the list of (h, t) can change: without a worker a call leaves there what the static function wrote, at the same length; with a worker, or without a call, every list stays; no function changes |
| Statistic.ApplyUnknownHandler | statistic/statistic_worker_api.go:66-93 | for an unknown handler the answer may be cached in a new entry, but no static function is called |
| Statistic.TouchKeepsNoDoubleFuncs | statistic/statistic_register_api.go:9-16 | a new entry has no static double function |
| Statistic.RegistrationKeepsNoDoubleFuncs | statistic/statistic_register_api.go:5-76 | no registration sets a static double function |
| Statistic.CachingKeepsNoDoubleFuncs | statistic/statistic_worker_api.go:41-93 | no caching sets one either |
| Statistic.DoubleNeverCalls | statistic/statistic_worker_api.go:162-164 | so `ApplyStaticDoubleFunc` never calls anything |
| Statistic.Manager.constructor | statistic/statistic_mgr.go:42-46 | both maps start empty |
| Statistic.Manager.Entry | statistic/statistic_register_api.go:9-16 | the handler's entry, stored and created empty when missing |
| Statistic.Manager.RegisterCategories | statistic/statistic_register_api.go:5-20 | the registries become `AppendCategories` of the old ones |
| Statistic.Manager.ResetRegisterCategories | statistic/statistic_register_api.go:24-39 | the registries become `ResetCategories` of the old ones |
| Statistic.Manager.RegisterQueryFunc | statistic/statistic_register_api.go:42-46 | the query function of h is replaced; the registries stay |
| Statistic.Manager.RegisterWorkerFunc | statistic/statistic_register_api.go:49-61 | the registries become `SetWorker` of the old ones |
| Statistic.Manager.RegisterStaticFunc | statistic/statistic_register_api.go:64-76 | the registries become `SetStatic` of the old ones |
| Statistic.Manager.Cache | statistic/statistic_worker_api.go:41-53 | a query answer is cached only where no list is stored |
| Statistic.Manager.GetCategories | statistic/statistic_worker_api.go:11-54 | the answer, whether a query was made, and the new registries are those the specification functions give |
| Statistic.Manager.FallbackStep | statistic/statistic_worker_api.go:66-93 | step 2 queries only for a handler with no entry and caches a non-empty answer in a new entry |
| Statistic.Manager.ApplyStaticFunc | statistic/statistic_worker_api.go:60-114 | the call made is `StaticCallOf` of the old state, after the fallback; the new registries are `AfterApply`: without a worker, the static function's writes to the stored slice land in the list of (h, t) |
| Statistic.Manager.ApplyStaticDoubleFunc | statistic/statistic_worker_api.go:119-173 | it may cache a query answer and calls nothing |
| Statistic.StaticCategoriesVector | statistic/statistic_test.go:9-25 | handler 1, type 100: [10, 20, 30] comes back |
| Statistic.QueryCachingVector | statistic/statistic_test.go:27-57 | handler 2, type 200: the query answer is returned, cached and not asked for again |
| Statistic.WorkerNotAppliedVector | statistic/statistic_test.go:59-85 | a registered worker does not change what `GetCategories` returns |
| Statistic.StaticFuncVector | statistic/statistic_test.go:119-141 | the static function is called on the stored list [1, 2, 3] with 10, and `GetCategories` afterwards returns [11, 12, 13] |
| CacheBuf.Delivery | cache/cache_list_mgr.go:74-76 | a batch is handed over exactly when it is non-empty and a handler is set, and it is the whole buffer |
| CacheBuf.StartLife | cache/cache_list_mgr.go:31-37 | as intended: started afterwards; a second Start changes nothing; a restart comes with an open stop channel |
| CacheBuf.StartLifeAsWritten | cache/cache_list_mgr.go:31-37 | `Start` as written, which keeps the closed stop channel: defined by its body; `CacheBuf.RestartThenStopPanics` states the panic it leads to |
| CacheBuf.StopLife | cache/cache_list_mgr.go:39-45 | a no-op when not started; otherwise not started afterwards; panics exactly when the channel is already closed |
| CacheBuf.RestartThenStopPanics | cache/cache_list_mgr.go:31-45 | as written, Start, Stop, Start, Stop panics in the second Stop |
| CacheBuf.RunLifeNeverPanics | cache/cache_list_mgr.go:31-45 | with the intended Start no sequence of Start/Stop calls panics, and a started buffer's channel is open |
| CacheBuf.LifeIdempotent | cache/service/cache_list_mgr.go:31-45 | a second Start, or a Stop when stopped, changes nothing |
| CacheBuf.DeliveredInOrder | cache/cache_list_mgr.go:47-77 | with a handler, the batches delivered followed by the buffer are exactly the items pushed, in order |
| CacheBuf.NoHandlerDeliversNothing | cache/service/cache_list_mgr.go:71-79 | without a handler nothing is ever delivered, a flush empties the buffer, and the buffer holds just the items pushed since the last flush |
| CacheBuf.ListBuffer.constructor | cache/cache_list_mgr.go:22-29 | an empty, stopped buffer with the given handler |
| CacheBuf.ListBuffer.Push | cache/cache_list_mgr.go:47-51 | appends the item at the end (likewise cache/service/cache_list_mgr.go:47-51) |
| CacheBuf.ListBuffer.Flush | cache/cache_list_mgr.go:69-77 | the buffer is empty afterwards and the batch is `Delivery` of the old buffer (likewise cache/service/cache_list_mgr.go:71-79) |
| CacheBuf.ListBuffer.Start | cache/cache_list_mgr.go:31-37 | the life becomes `StartLife` of the old one; the buffer stays |
| CacheBuf.ListBuffer.Stop | cache/cache_list_mgr.go:39-45 | the life becomes `StopLife` of the old one, which does not panic; the buffer stays |
| CacheBuf.KeyBuffer.constructor | cache/cache_key_mgr.go:22-29 | an empty, stopped buffer with the given handler |
| CacheBuf.KeyBuffer.UpdateKeyValue | cache/cache_key_mgr.go:47-52 | last write wins for the key; other keys stay (likewise cache/service/cache_key_mgr.go:50-55) |
| CacheBuf.KeyBuffer.GetKeyValue | cache/cache_key_mgr.go:54-62 | the stored value, or nil |
| CacheBuf.KeyBuffer.Push | cache/cache_key_mgr.go:64-66 | does nothing and reports no error |
| CacheBuf.KeyBuffer.Flush | cache/cache_key_mgr.go:86-97 | the map is empty afterwards; every stored value is delivered once, in the visiting order, which lists every key once (likewise cache/service/cache_key_mgr.go:74-85) |
| CacheBuf.KeyBuffer.Start | cache/cache_key_mgr.go:31-37 | the life becomes `StartLife` of the old one |
| CacheBuf.KeyBuffer.Stop | cache/cache_key_mgr.go:39-45 | the life becomes `StopLife` of the old one |
| CacheBuf.Drain | cache/cache_key_mgr.go:88-92 | the loop visits every key exactly once and collects its value |
| CacheBuf.FlushCountsEveryKey | cache/service/cache_key_mgr.go:74-81 | a flush hands over as many values as there were keys, each the value of its key |
| CacheBuf.UpdateThenGet | cache/cache_key_mgr.go:47-62 | a key reads back as the value just written; other keys read as before |
| TimeCache.Cached | cache/cache_time.go:33-52 | a hit returns the stored text and changes nothing; a miss formats and stores under the Unix second; no stored text is overwritten |
| TimeCache.CachedKeepsConsistent | cache/cache_time.go:38-40 | every stored text stays one the formatter prints for that second |
| TimeCache.CachedTransparent | cache/cache_time.go:33-41 | when the layout depends only on the second, the memo answers exactly what formatting would |
| TimeCache.CachedTwice | cache/cache_time.go:34-37 | asking again for the same second returns the same text and changes nothing |
| TimeCache.CacheIgnoresZone | cache/cache_time.go:34 | the first zone to ask decides the text later callers in other zones get |
| TimeCache.Without | cache/cache_time.go:69-81 | exactly the entries the callback does not drop remain, with their texts |
| TimeCache.WithoutIdempotent | cache/cache_time.go:69-81 | a second pass deletes nothing more |
| TimeCache.PruneExact | cache/cache_time.go:69-81 | exactly the seconds at or after the cutoff remain |
| TimeCache.PruneKeepsConsistent | cache/cache_time.go:69-81 | pruning keeps the cache consistent |
| TimeCache.Cutoff | cache/cache_time.go:67 | the cutoff is the second, rounded down, of now minus the expiry |
| TimeCache.RangeDelete | cache/cache_time.go:69-81 | the Range loop deletes exactly the dropped keys |
| TimeCache.TimeFormatCache.constructor | cache/cache_time.go:22-30 | both caches empty |
| TimeCache.TimeFormatCache.FormatDate | cache/cache_time.go:33-41 | the text and the date cache are `Cached` with layout "20060102"; the hour cache stays |
| TimeCache.TimeFormatCache.FormatHour | cache/cache_time.go:44-52 | the same with layout "2006010215" and the hour cache; the date cache stays |
| TimeCache.TimeFormatCache.Cleanup | cache/cache_time.go:66-84 | both caches lose exactly the seconds before the cutoff; `lastClean` is the current second |
| TimeCache.TimeFormatCache.Stop | cache/cache_time.go:87-89 | closes the stop channel; panics exactly when it was closed already |
| Daily.DaysIn | timestate/daily.go:245 | every month has 28 to 31 days |
| Daily.NextMonth | timestate/daily.go:245 | the month after, in 1..12, December rolling to January of the next year |
| Daily.AddDays | timestate/daily.go:241 | the result is a valid date whose weekday is n days on |
| Daily.AdjustedWeekday | timestate/daily.go:274-276 | Monday is 0 and Sunday 6 |
| Daily.WeekOfMonth | timestate/daily.go:272-283 | the week number lies in 1..6 |
| Daily.OffsetWeekday | timestate/daily.go:272-283 | the day's offset from the first week's Monday is congruent to its adjusted weekday |
| Daily.FirstDayWeekOne | timestate/daily.go:272-283 | the 1st is always in week 1 |
| Daily.WeekStepsOnMonday | timestate/daily.go:272-283 | within a month the week number goes up by one exactly on a Monday; the next month starts at week 1 |
| Daily.WeekOfMonthMay2025 | timestate/timestate_test.go:48-53 | May 2025: days 1 and 4 are week 1, 5 and 7 week 2, 12 and 13 week 3 |
| Daily.PeriodKeyRoundTrip | timestate/daily.go:255-259 | the key reads back as year, month and week of the month |
| Daily.PeriodKeyInjective | timestate/daily.go:255-259 | two dates share a key exactly when they share year, month and week |
| Daily.BuildPeriodKey | timestate/daily.go:254-259 | `BuildPeriodKey`: defined by its body; `Daily.PeriodKeyRoundTrip` and `Daily.PeriodKeyInjective` state that the key reads back as year, month and week |
| Daily.ZeroMonth | timestate/daily.go:416-421 | the first seven characters of the stored date, or "" |
| Daily.ZeroMonthOfDate | timestate/daily.go:416-421 | for a stored date the month text is "YYYY-MM" |
| Daily.NextWeekOffsetIsNextMonday | timestate/daily.go:237-241 | the offset lies in 1..7, lands on a Monday, and no earlier positive step does |
| Daily.BoundariesOfStates | timestate/daily.go:221-247 | the stored boundaries are ordered; the next week starts on a Monday within 7 days; the next month on the 1st of the following month |
| Daily.StatesFor | timestate/daily.go:221-247 | `updateTimeStates`' computation: defined by its body; `Daily.BoundariesOfStates` and `Daily.NextWeekOffsetIsNextMonday` state its boundaries |
| Daily.Due | timestate/daily.go:115-136 | each group is due exactly when now has reached its stored boundary |
| Daily.MidnightFires | timestate/daily.go:115-136 | on the day after, the day group always fires, the week group exactly on a Monday, the month group exactly on the 1st |
| Daily.CallsOf | timestate/daily.go:286-294 | each registered callback runs once, with the given time |
| Daily.TimeState.constructor | timestate/daily.go:41-59 | every state reads as its zero value and no callbacks are registered |
| Daily.TimeState.UpdateTimeStates | timestate/daily.go:221-247 | the stored states are `StatesFor` the date; the callbacks stay |
| Daily.TimeState.Store | timestate/daily.go:227-246 | the atomic stores set exactly the given states |
| Daily.TimeState.RegisterDayCallback | timestate/daily.go:310-314 | appends to the day group only |
| Daily.TimeState.RegisterWeekCallback | timestate/daily.go:316-320 | appends to the week group only |
| Daily.TimeState.RegisterMonthCallback | timestate/daily.go:322-326 | appends to the month group only |
| Daily.TimeState.MidnightStep | timestate/daily.go:86-112 | the groups due against the states loaded before the update run, each callback once; then the states are recomputed |
| Daily.TimeState.CheckAndTriggerCallbacks | timestate/daily.go:115-136 | the runs are exactly the callbacks of the due groups |
| Daily.Registered | timestate/daily.go:329-347 | an in-range time is appended; an out-of-range one leaves the list unchanged |
| Daily.RegisteredKeepsRange | timestate/daily.go:330-333 | every registration in the list is in range |
| Daily.OutOfRangeMatchesNothing | timestate/daily.go:330-333 | a time outside the day matches nothing |
| Daily.MatchingExact | timestate/daily.go:355-360 | a function is matched exactly when it was registered for that time |
| Daily.GroupedIsMatching | timestate/daily.go:146-156 | the map entry for a time is exactly what the scan matches, in registration order, and exists only when something matches |
| Daily.RegistrationVector | timestate/timestate_test.go:104-117 | (-1, 0) and (0, 60) are rejected; (23, 59) is registered and matched |
| Daily.DailyTimers.constructor | timestate/daily.go:61-66 | no registrations, no pending notification, an empty map |
| Daily.DailyTimers.RegisterDailyTimeCallback | timestate/daily.go:329-347 | the list becomes `Registered` of the old one; an accepted registration leaves a notification pending |
| Daily.DailyTimers.Group | timestate/daily.go:146-156 | the loop builds `Grouped` of the list |
| Daily.DailyTimers.RebuildCallbackMap | timestate/daily.go:146-156 | the map becomes `Grouped` of the registrations |
| Daily.DailyTimers.WatchStep | timestate/daily.go:161-166 | taking the notification rebuilds the map, which is current afterwards |
| Daily.DailyTimers.MinuteTick | timestate/daily.go:176-187 | the callbacks the map holds for the time, which are the matching ones when no notification is pending |
| Daily.DailyTimers.TriggerDailyCallback | timestate/daily.go:350-393 | the scan selects exactly the matching callbacks; none for an out-of-range time |

## Left out

- Locks, goroutines, tickers, channels and atomics. The model is sequential: locks only serialise, and each loop of a goroutine is modelled as one step (`SweepTick`, `MidnightStep`, `WatchStep`, `MinuteTick`). `timestate/timestamp.go` is not part of this model.
- Wall-clock time and the time package. The current time is a parameter. A date comes with its weekday, and days are 86400 seconds, so daylight-saving shifts are not modelled. `time.Format` is a function the time cache is given.
- Daily.AddDays: stated for steps that cross at most one month end. These are the only steps the code takes.
- TimeCache.TimeFormatCache.Cleanup: `cleanup` reads the clock twice. The model uses one instant for both.
- Floating point:
  - `IncreaseIfCondFloat64` and `DecreaseIfEnoughFloat64` are not modelled.
  - A float value keeps only its value truncated toward zero, which is all the integer coercions read.
  - Values.ToInt: the conversion of a float64 outside the int64 range is not modelled. Go leaves that result implementation-defined.
- `NewDecimal`: its parsing through `big.Rat` is not modelled. A decimal is built from its split (integer, fractional part, places). The test vectors that start from exponent syntax or 18-digit operands are not stated.
- The handlers' side effects: stores, clean-expired handlers, flush handlers, static functions and callbacks are tokens. The one effect modelled is a static function's writes to the stored slice it is passed. The operations return the calls they make. Store errors are ignored by the source and so by the model.
- CycleData.Collection.Get: a loader or creator result becomes a fresh record. A Go loader could return a record that is also held elsewhere; that aliasing is not modelled.
- CycleData.Collection.Set: the record keeps the caller's map itself (`cycledata/cycledata.go:157,165`). A bag is a value here, so a caller's later writes to that map, which change the stored record in Go, are not modelled.
- CycleData.Handler.SetData: stores the caller's map by reference, as `CycleData.Collection.Set` does; the same aliasing is not modelled.
- CycleData.Handler.GetDataValue: `maps.Clone` is shallow (`cycledata/getdata.go:36`). The nested `map[int32]int32` values stay shared with the record, and `cycledata/cond_map.go` writes them in place, so in Go a later map operation also changes the caller's "copy". The model's copy is independent.
- Statistic.Manager.GetCategories: returns the stored slice itself (`statistic/statistic_worker_api.go:17-21`), not a copy; a caller's writes to it, which change the stored list in Go, are not modelled.
- Statistic.Manager.ApplyStaticFunc: the static function's writes to its argument are modelled only when no worker is set, when Go passes it the stored slice. With a worker the model takes the worker's result to be a fresh slice and the worker to leave its input alone; a worker that returns or writes the stored slice would also change the stored list in Go.
- A nil `MiscData` map is not modelled: a bag is always a map, so `GetDataValue`'s nil case is the empty map.
- CacheBuf.KeyBuffer.Flush: Go's map iteration order, which is random, is an output `order`. The contract is stated for every order.
- Statistic.Manager.ApplyStaticDoubleFunc: the `workerDoubleFunc` step is not modelled. It is declared without a result, yet its result is assigned. No operation ever sets the double function, so the call never happens.
- Daily.PeriodKeyRoundTrip: stated for years 0 to 9999, where `%04d` gives exactly four digits.
- DecimalNum.FixedTextRoundTrip: stated for n >= 1 and n at least the decimal's places. Below that, the text is not scaled down, as written.
- Other files:
  - `cycledata/register.go` duplicates the registration functions. Its `storeData` is never read.
  - `cycledata/cond_demo.go` and `cache/cache_demo.go` are demos.
  - `statistic/statistic.go` is a separate collector built on `sync.Map`, atomics and a formatter pool.
  - The module and server wiring of `cache/cache_register.go`, `cache/service/cache_register.go`, `cache/service/cache.go` and `cache/service/cache_service.go` is not part of this model.
- The package-level wrappers that delegate to the one global manager or handler are the class methods themselves, called on one instance.
- Logging and printing.

## Findings

| source | as written | input that shows it | evidently intended | confidence | as-written member | corrected member |
|---|---|---|---|---|---|---|
| cycledata/cond_slice.go:82 | the filtered slice is made with capacity one less than the stored slice | `RemoveFromInt32SliceIf` on a stored empty `[]int32` with a `cond` that accepts it: capacity -1 panics at run time | store the empty slice back and report success | not executed | CondOps.RemoveSliceAsWrittenPanics | CondOps.RemoveSlice |
| float/float.go:113-127 | the sign comes only from the integer part's text | `Decimal(0, -5, 1)`, that is -0.5, prints "0.5", the text of 0.5 | a minus sign whenever the value is negative | not executed | DecimalNum.TextAsWrittenLosesSign | DecimalNum.TextRoundTrip |
| float/float.go:130-142 | the scaled value is split by Euclidean `DivMod` | -1.5 at one place prints "-2.5" | truncation toward zero, as `fromScaledInt` does, printing "-1.5" | not executed | DecimalNum.FixedTextAsWrittenFloors | DecimalNum.FixedTextRoundTrip |
| cache/cache_list_mgr.go:31-45 | `Start` does not make a new stop channel after a `Stop` closed it | Start, Stop, Start, Stop: the second Stop closes a closed channel and panics (likewise in the other three buffers) | a restart comes with a fresh, open stop channel | not executed | CacheBuf.RestartThenStopPanics | CacheBuf.RunLifeNeverPanics |
