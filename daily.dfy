/**
 * The calendar side of timestate/daily.go: the Monday-based week of the
 * month, the "YYYY-MM-Wn" period key, the day/week/month boundaries that
 * `updateTimeStates` stores, the test that fires the period callbacks at
 * midnight, and the table of daily callbacks at a fixed hour and minute.
 *
 * The time package is not part of this model. A date is given with its
 * weekday; days are 86400 seconds (a zone without daylight saving), and
 * `AddDate`/`time.Date` normalisation is written out for the steps the code
 * takes.
 */
module Daily {
  import opened Wrappers
  import opened Text

  const SECONDS_PER_DAY: int := 86400

  /** `time.Weekday`: Sunday = 0, ..., Saturday = 6. */
  type Weekday = w: int | 0 <= w < 7

  const MONDAY: Weekday := 1

  /** A calendar date in the proleptic Gregorian calendar, with its weekday. */
  datatype Date = Date(year: int, month: int, day: int, weekday: Weekday)

  predicate IsLeap(year: int)
  {
    year % 4 == 0 && (year % 100 != 0 || year % 400 == 0)
  }

  function DaysIn(year: int, month: int): (r: int)
    ensures 28 <= r <= 31
  {
    if month == 2 then (if IsLeap(year) then 29 else 28)
    else if month == 4 || month == 6 || month == 9 || month == 11 then 30
    else 31
  }

  predicate ValidDate(d: Date)
  {
    1 <= d.month <= 12 && 1 <= d.day <= DaysIn(d.year, d.month)
  }

  /** `time.Date(year, month+1, 1, ...)` normalised: December rolls over to January. */
  function NextMonth(year: int, month: int): (r: (int, int))
    requires 1 <= month <= 12
    ensures 1 <= r.1 <= 12
    ensures r.0 * 12 + r.1 == year * 12 + month + 1
  {
    if month == 12 then (year + 1, 1) else (year, month + 1)
  }

  /**
   * `AddDate(0, 0, n)` for a step that crosses at most one month end (every
   * step the code takes does).
   */
  function AddDays(d: Date, n: int): (r: Date)
    requires ValidDate(d) && 0 <= n && d.day + n <= DaysIn(d.year, d.month) + 28
    ensures ValidDate(r)
    ensures r.weekday == (d.weekday + n) % 7
  {
    var dim := DaysIn(d.year, d.month);
    if d.day + n <= dim then Date(d.year, d.month, d.day + n, (d.weekday + n) % 7)
    else
      var (y, m) := NextMonth(d.year, d.month);
      Date(y, m, d.day + n - dim, (d.weekday + n) % 7)
  }

  // ---------------------------------------------------------------------------
  // Week of the month and the period key.
  // ---------------------------------------------------------------------------

  /** The weekday moved so that Monday = 0, ..., Sunday = 6. */
  function AdjustedWeekday(w: Weekday): (r: int)
    ensures 0 <= r < 7
    ensures r == 0 <==> w == MONDAY
  {
    (w + 6) % 7
  }

  /** The weekday of the first of d's month. */
  function FirstWeekday(d: Date): Weekday
  {
    (d.weekday - (d.day - 1)) % 7
  }

  /** Days from the Monday that starts the first (partial) week of the month. */
  function MonthOffset(d: Date): int
  {
    d.day - 1 + AdjustedWeekday(FirstWeekday(d))
  }

  /** `GetWeekOfMonth`: weeks start on Monday, and the week holding the 1st is week 1. */
  function WeekOfMonth(d: Date): (r: int)
    requires ValidDate(d)
    ensures 1 <= r <= 6
  {
    MonthOffset(d) / 7 + 1
  }

  /** The offset counts the weekdays: d's own weekday is the offset mod 7. */
  lemma OffsetWeekday(d: Date)
    requires ValidDate(d)
    ensures AdjustedWeekday(d.weekday) == MonthOffset(d) % 7
  {
    var f: int := FirstWeekday(d);
    var q1: int := (d.weekday - (d.day - 1)) / 7;
    assert f == d.weekday - d.day + 1 - 7 * q1;
    var q2: int := (f + 6) / 7;
    assert MonthOffset(d) == d.weekday + 6 - 7 * (q1 + q2);
    ModMultiple(d.weekday + 6, -(q1 + q2));
  }

  lemma ModMultiple(x: int, k: int)
    ensures (x + 7 * k) % 7 == x % 7
  {
  }

  /** The first of the month is always in week 1. */
  lemma FirstDayWeekOne(d: Date)
    requires ValidDate(d) && d.day == 1
    ensures WeekOfMonth(d) == 1
  {
  }

  /**
   * Within a month the week number goes up by one exactly on a Monday, and
   * the day after the last of the month starts again at week 1.
   */
  lemma WeekStepsOnMonday(d: Date)
    requires ValidDate(d)
    ensures var n := AddDays(d, 1);
      if d.day < DaysIn(d.year, d.month)
      then WeekOfMonth(n) == WeekOfMonth(d) + (if n.weekday == MONDAY then 1 else 0)
      else WeekOfMonth(n) == 1
  {
    var n := AddDays(d, 1);
    if d.day < DaysIn(d.year, d.month) {
      assert FirstWeekday(n) == FirstWeekday(d);
      assert MonthOffset(n) == MonthOffset(d) + 1;
      OffsetWeekday(n);
    } else {
      FirstDayWeekOne(n);
    }
  }

  /** The dates of the test table: May 2025, whose first day is a Thursday. */
  lemma WeekOfMonthMay2025()
    ensures WeekOfMonth(Date(2025, 5, 1, 4)) == 1
    ensures WeekOfMonth(Date(2025, 5, 4, 0)) == 1
    ensures WeekOfMonth(Date(2025, 5, 5, 1)) == 2
    ensures WeekOfMonth(Date(2025, 5, 7, 3)) == 2
    ensures WeekOfMonth(Date(2025, 5, 12, 1)) == 3
    ensures WeekOfMonth(Date(2025, 5, 13, 2)) == 3
  {
  }

  /** `BuildPeriodKey`: `fmt.Sprintf("%04d-%02d-W%d", year, month, week)`. */
  function BuildPeriodKey(d: Date): string
    requires ValidDate(d)
  {
    FormatZeroPadded(d.year, 4) + "-" + FormatZeroPadded(d.month, 2) + "-W" + IntToString(WeekOfMonth(d))
  }

  /** What a period key says: year, month and week. */
  datatype PeriodKey = PeriodKey(year: nat, month: nat, week: nat)

  /** A reader of "YYYY-MM-Wn" keys, the inverse the round trip is stated with. */
  function ParsePeriodKey(s: string): Option<PeriodKey>
  {
    if |s| >= 10 && s[4] == '-' && s[7] == '-' && s[8] == 'W'
       && AllDigits(s[..4]) && AllDigits(s[5..7]) && AllDigits(s[9..])
    then Some(PeriodKey(DigitsValue(s[..4]), DigitsValue(s[5..7]), DigitsValue(s[9..])))
    else None
  }

  lemma ReadKeyParts(y: string, m: string, w: string, s: string)
    requires |y| == 4 && |m| == 2 && |w| >= 1
    requires AllDigits(y) && AllDigits(m) && AllDigits(w)
    requires s == y + "-" + m + "-W" + w
    ensures ParsePeriodKey(s) == Some(PeriodKey(DigitsValue(y), DigitsValue(m), DigitsValue(w)))
  {
    assert s[..4] == y;
    assert s[5..7] == m;
    assert s[9..] == w;
  }

  /** `%0<width>d` of a value with at most `width` digits is exactly `width` digits of it. */
  lemma PaddedField(v: nat, width: nat)
    requires width >= 1 && v < Pow10(width)
    ensures |FormatZeroPadded(v, width)| == width && AllDigits(FormatZeroPadded(v, width))
    ensures DigitsValue(FormatZeroPadded(v, width)) == v
  {
    NatToStringLength(v, width);
    PadZerosValue(NatToString(v), width);
    NatToStringRoundTrip(v);
  }

  /** For four-digit years the key can be read back: year, month and week. */
  lemma PeriodKeyRoundTrip(d: Date)
    requires ValidDate(d) && 0 <= d.year <= 9999
    ensures ParsePeriodKey(BuildPeriodKey(d)) == Some(PeriodKey(d.year, d.month, WeekOfMonth(d)))
  {
    assert Pow10(2) == 100 by { assert Pow10(1) == 10; }
    assert Pow10(4) == 10000 by { assert Pow10(3) == 1000 by { assert Pow10(2) == 100 by { assert Pow10(1) == 10; } } }
    PaddedField(d.year, 4);
    PaddedField(d.month, 2);
    var w := WeekOfMonth(d);
    NatToStringRoundTrip(w);
    ReadKeyParts(FormatZeroPadded(d.year, 4), FormatZeroPadded(d.month, 2), NatToString(w), BuildPeriodKey(d));
  }

  /** Two such dates share a key exactly when they share year, month and week. */
  lemma PeriodKeyInjective(d: Date, e: Date)
    requires ValidDate(d) && 0 <= d.year <= 9999
    requires ValidDate(e) && 0 <= e.year <= 9999
    ensures BuildPeriodKey(d) == BuildPeriodKey(e) <==>
      d.year == e.year && d.month == e.month && WeekOfMonth(d) == WeekOfMonth(e)
  {
    PeriodKeyRoundTrip(d);
    PeriodKeyRoundTrip(e);
  }

  /** `Format("2006-01-02")` of a midnight. */
  function DateText(d: Date): string
  {
    FormatZeroPadded(d.year, 4) + "-" + FormatZeroPadded(d.month, 2) + "-" + FormatZeroPadded(d.day, 2)
  }

  /** `GetZeroMonth`: the first seven characters of the stored date, or "". */
  function ZeroMonth(zeroDate: string): (r: string)
    ensures |zeroDate| < 7 ==> r == ""
    ensures |zeroDate| >= 7 ==> r == zeroDate[..7]
  {
    if |zeroDate| >= 7 then zeroDate[..7] else ""
  }

  /** For four-digit years the month text is "YYYY-MM". */
  lemma ZeroMonthOfDate(d: Date)
    requires ValidDate(d) && 0 <= d.year <= 9999
    ensures ZeroMonth(DateText(d)) == FormatZeroPadded(d.year, 4) + "-" + FormatZeroPadded(d.month, 2)
  {
    assert Pow10(2) == 100 by { assert Pow10(1) == 10; }
    assert Pow10(4) == 10000 by { assert Pow10(3) == 1000 by { assert Pow10(2) == 100 by { assert Pow10(1) == 10; } } }
    PaddedField(d.year, 4);
    PaddedField(d.month, 2);
    var ym := FormatZeroPadded(d.year, 4) + "-" + FormatZeroPadded(d.month, 2);
    assert DateText(d) == ym + ("-" + FormatZeroPadded(d.day, 2));
    assert DateText(d)[..7] == ym;
  }

  // ---------------------------------------------------------------------------
  // Boundaries and the midnight check.
  // ---------------------------------------------------------------------------

  /** Days from `today` to the following Monday: `(8 - weekday) % 7`, with 0 made 7. */
  function NextWeekOffset(w: Weekday): (r: int)
  {
    var offset := (8 - w) % 7;
    if offset == 0 then 7 else offset
  }

  /** The weekday k days after one on weekday w. */
  function WeekdayAfter(w: Weekday, k: int): Weekday
  {
    (w + k) % 7
  }

  /** The offset is the least positive step that lands on a Monday. */
  lemma NextWeekOffsetIsNextMonday(w: Weekday)
    ensures 1 <= NextWeekOffset(w) <= 7
    ensures (w + NextWeekOffset(w)) % 7 == MONDAY
    ensures forall k :: 1 <= k < NextWeekOffset(w) ==> WeekdayAfter(w, k) != MONDAY
  {
  }

  /** Everything `updateTimeStates` stores. */
  datatype TimeStates = TimeStates(
    currentKey: string, nextKey: string,
    zeroMs: int, zeroSec: int, zeroDate: string,
    nextDay: int, nextWeek: int, nextMonth: int)

  /**
   * `updateTimeStates` for a time on date d whose midnight is `midnight`
   * seconds: the keys of now and of seven days on, the midnight, and the
   * next day, Monday and first of the month.
   */
  function StatesFor(d: Date, midnight: int): TimeStates
    requires ValidDate(d)
  {
    TimeStates(
      BuildPeriodKey(d), BuildPeriodKey(AddDays(d, 7)),
      midnight * 1000, midnight, DateText(d),
      midnight + SECONDS_PER_DAY,
      midnight + NextWeekOffset(d.weekday) * SECONDS_PER_DAY,
      midnight + (DaysIn(d.year, d.month) - d.day + 1) * SECONDS_PER_DAY)
  }

  /**
   * The boundaries are ordered, the next week starts on a Monday within seven
   * days, and the next month starts on the first of the following month.
   */
  lemma BoundariesOfStates(d: Date, midnight: int)
    requires ValidDate(d)
    ensures var s := StatesFor(d, midnight);
      s.zeroSec < s.nextDay <= s.nextWeek <= s.zeroSec + 7 * SECONDS_PER_DAY &&
      s.nextDay <= s.nextMonth <= s.zeroSec + 31 * SECONDS_PER_DAY
    ensures var w := NextWeekOffset(d.weekday);
      AddDays(d, w).weekday == MONDAY
    ensures var n := AddDays(d, DaysIn(d.year, d.month) - d.day + 1);
      n.day == 1 && (n.year, n.month) == NextMonth(d.year, d.month)
  {
    NextWeekOffsetIsNextMonday(d.weekday);
  }

  datatype Period = DayPeriod | WeekPeriod | MonthPeriod

  /** `checkAndTriggerCallbacks`: the groups whose stored boundary `nowTs` has reached. */
  function Due(nowTs: int, s: TimeStates): (r: set<Period>)
    ensures DayPeriod in r <==> nowTs >= s.nextDay
    ensures WeekPeriod in r <==> nowTs >= s.nextWeek
    ensures MonthPeriod in r <==> nowTs >= s.nextMonth
  {
    (if nowTs >= s.nextDay then {DayPeriod} else {}) +
    (if nowTs >= s.nextWeek then {WeekPeriod} else {}) +
    (if nowTs >= s.nextMonth then {MonthPeriod} else {})
  }

  /**
   * Waking during the day after d, against the states stored for d: the day
   * group always fires, the week group exactly when the new day is a Monday,
   * and the month group exactly when it is the first of a month.
   */
  lemma MidnightFires(d: Date, midnight: int, nowTs: int)
    requires ValidDate(d)
    requires midnight + SECONDS_PER_DAY <= nowTs < midnight + 2 * SECONDS_PER_DAY
    ensures var due := Due(nowTs, StatesFor(d, midnight));
      var n := AddDays(d, 1);
      DayPeriod in due && (WeekPeriod in due <==> n.weekday == MONDAY) &&
      (MonthPeriod in due <==> n.day == 1)
  {
    NextWeekOffsetIsNextMonday(d.weekday);
  }

  // ---------------------------------------------------------------------------
  // The state the package keeps, and the period callbacks.
  // ---------------------------------------------------------------------------

  /** A day/week/month callback; what it does is outside the model. */
  datatype PeriodFunc = PeriodFunc(id: nat)

  /** One callback run: the function and the time it was given. */
  datatype Call = Call(fn: PeriodFunc, at: int)

  /** The runs `triggerCallbacks(t)` starts: each registered callback once, with t. */
  function CallsOf(fns: seq<PeriodFunc>, at: int): (r: seq<Call>)
    ensures |r| == |fns|
    ensures forall i :: 0 <= i < |fns| ==> r[i] == Call(fns[i], at)
  {
    seq(|fns|, i requires 0 <= i < |fns| => Call(fns[i], at))
  }

  /** The package-level time states and the three callback managers. */
  class TimeState {
    var currentWeekKey: string
    var nextWeekKey: string
    var zeroMs: int
    var zeroSec: int
    var zeroDate: string
    var nextDay: int
    var nextWeek: int
    var nextMonth: int
    var dayCallbacks: seq<PeriodFunc>
    var weekCallbacks: seq<PeriodFunc>
    var monthCallbacks: seq<PeriodFunc>

    /** Before initialisation every state reads as its zero value. */
    constructor ()
      ensures Snapshot() == TimeStates("", "", 0, 0, "", 0, 0, 0)
      ensures dayCallbacks == [] && weekCallbacks == [] && monthCallbacks == []
    {
      currentWeekKey, nextWeekKey := "", "";
      zeroMs, zeroSec, zeroDate := 0, 0, "";
      nextDay, nextWeek, nextMonth := 0, 0, 0;
      dayCallbacks, weekCallbacks, monthCallbacks := [], [], [];
    }

    function Snapshot(): TimeStates
      reads this
    {
      TimeStates(currentWeekKey, nextWeekKey, zeroMs, zeroSec, zeroDate, nextDay, nextWeek, nextMonth)
    }

    /** `updateTimeStates(t)` for a time on d whose midnight is `midnight`. */
    method UpdateTimeStates(d: Date, midnight: int)
      requires ValidDate(d)
      modifies this
      ensures Snapshot() == StatesFor(d, midnight)
      ensures dayCallbacks == old(dayCallbacks) && weekCallbacks == old(weekCallbacks)
      ensures monthCallbacks == old(monthCallbacks)
    {
      var offset := (8 - d.weekday) % 7;
      if offset == 0 {
        offset := 7;
      }
      var states := TimeStates(
        BuildPeriodKey(d), BuildPeriodKey(AddDays(d, 7)),
        midnight * 1000, midnight, DateText(d),
        midnight + SECONDS_PER_DAY,
        midnight + offset * SECONDS_PER_DAY,
        midnight + (DaysIn(d.year, d.month) - d.day + 1) * SECONDS_PER_DAY);
      Store(states);
    }

    /** The atomic stores of `updateTimeStates`, one per state. */
    method Store(s: TimeStates)
      modifies this
      ensures Snapshot() == s
      ensures dayCallbacks == old(dayCallbacks) && weekCallbacks == old(weekCallbacks)
      ensures monthCallbacks == old(monthCallbacks)
    {
      currentWeekKey, nextWeekKey := s.currentKey, s.nextKey;
      zeroMs, zeroSec, zeroDate := s.zeroMs, s.zeroSec, s.zeroDate;
      nextDay, nextWeek, nextMonth := s.nextDay, s.nextWeek, s.nextMonth;
    }

    method RegisterDayCallback(fn: PeriodFunc)
      modifies this
      ensures dayCallbacks == old(dayCallbacks) + [fn]
      ensures weekCallbacks == old(weekCallbacks) && monthCallbacks == old(monthCallbacks)
      ensures Snapshot() == old(Snapshot())
    {
      dayCallbacks := dayCallbacks + [fn];
    }

    method RegisterWeekCallback(fn: PeriodFunc)
      modifies this
      ensures weekCallbacks == old(weekCallbacks) + [fn]
      ensures dayCallbacks == old(dayCallbacks) && monthCallbacks == old(monthCallbacks)
      ensures Snapshot() == old(Snapshot())
    {
      weekCallbacks := weekCallbacks + [fn];
    }

    method RegisterMonthCallback(fn: PeriodFunc)
      modifies this
      ensures monthCallbacks == old(monthCallbacks) + [fn]
      ensures dayCallbacks == old(dayCallbacks) && weekCallbacks == old(weekCallbacks)
      ensures Snapshot() == old(Snapshot())
    {
      monthCallbacks := monthCallbacks + [fn];
    }

    /**
     * One wake-up of the midnight loop on date d at `nowTs`: the boundaries
     * stored before the update decide which groups run; then the states
     * are recomputed for d. The goroutines run in an unspecified order; the
     * model lists the runs day group first.
     */
    method MidnightStep(d: Date, midnight: int, nowTs: int) returns (calls: seq<Call>)
      requires ValidDate(d)
      modifies this
      ensures var due := Due(nowTs, old(Snapshot()));
        calls ==
          (if DayPeriod in due then CallsOf(dayCallbacks, nowTs) else []) +
          (if WeekPeriod in due then CallsOf(weekCallbacks, nowTs) else []) +
          (if MonthPeriod in due then CallsOf(monthCallbacks, nowTs) else [])
      ensures Snapshot() == StatesFor(d, midnight)
      ensures dayCallbacks == old(dayCallbacks) && weekCallbacks == old(weekCallbacks)
      ensures monthCallbacks == old(monthCallbacks)
    {
      var prev := Snapshot();
      UpdateTimeStates(d, midnight);
      calls := CheckAndTriggerCallbacks(nowTs, prev, dayCallbacks, weekCallbacks, monthCallbacks);
    }

    /** `checkAndTriggerCallbacks` against the boundaries loaded before the update. */
    static method CheckAndTriggerCallbacks(nowTs: int, prev: TimeStates,
        day: seq<PeriodFunc>, week: seq<PeriodFunc>, month: seq<PeriodFunc>)
      returns (calls: seq<Call>)
      ensures var due := Due(nowTs, prev);
        calls ==
          (if DayPeriod in due then CallsOf(day, nowTs) else []) +
          (if WeekPeriod in due then CallsOf(week, nowTs) else []) +
          (if MonthPeriod in due then CallsOf(month, nowTs) else [])
    {
      calls := [];
      if nowTs >= prev.nextDay {
        calls := calls + CallsOf(day, nowTs);
      }
      if nowTs >= prev.nextWeek {
        calls := calls + CallsOf(week, nowTs);
      }
      if nowTs >= prev.nextMonth {
        calls := calls + CallsOf(month, nowTs);
      }
    }
  }

  // ---------------------------------------------------------------------------
  // Daily callbacks at a fixed hour and minute.
  // ---------------------------------------------------------------------------

  /** A `TimedCallbackFunc`; what it does is outside the model. */
  datatype TimedFunc = TimedFunc(id: nat)

  datatype TimedCallback = TimedCallback(hour: int, minute: int, fn: TimedFunc)

  datatype TimeKey = TimeKey(hour: int, minute: int)

  predicate InRange(hour: int, minute: int)
  {
    0 <= hour <= 23 && 0 <= minute <= 59
  }

  predicate AllInRange(cbs: seq<TimedCallback>)
  {
    forall i :: 0 <= i < |cbs| ==> InRange(cbs[i].hour, cbs[i].minute)
  }

  /** `RegisterDailyTimeCallback` on the list: out-of-range times are rejected. */
  function Registered(cbs: seq<TimedCallback>, hour: int, minute: int, fn: TimedFunc): (r: seq<TimedCallback>)
    ensures InRange(hour, minute) ==> r == cbs + [TimedCallback(hour, minute, fn)]
    ensures !InRange(hour, minute) ==> r == cbs
  {
    if InRange(hour, minute) then cbs + [TimedCallback(hour, minute, fn)] else cbs
  }

  lemma RegisteredKeepsRange(cbs: seq<TimedCallback>, hour: int, minute: int, fn: TimedFunc)
    requires AllInRange(cbs)
    ensures AllInRange(Registered(cbs, hour, minute, fn))
  {
  }

  /** The functions registered for exactly (hour, minute), in registration order. */
  function Matching(cbs: seq<TimedCallback>, hour: int, minute: int): seq<TimedFunc>
  {
    if cbs == [] then []
    else
      var prior := Matching(cbs[..|cbs| - 1], hour, minute);
      var last := cbs[|cbs| - 1];
      if last.hour == hour && last.minute == minute then prior + [last.fn] else prior
  }

  /** A time outside the day matches nothing once every registration was checked. */
  lemma {:induction false} OutOfRangeMatchesNothing(cbs: seq<TimedCallback>, hour: int, minute: int)
    requires AllInRange(cbs) && !InRange(hour, minute)
    ensures Matching(cbs, hour, minute) == []
  {
    if cbs != [] {
      OutOfRangeMatchesNothing(cbs[..|cbs| - 1], hour, minute);
    }
  }

  /** Every matched function was registered for that time, and every such registration is matched. */
  lemma {:induction false} MatchingExact(cbs: seq<TimedCallback>, hour: int, minute: int, fn: TimedFunc)
    ensures fn in Matching(cbs, hour, minute) <==> TimedCallback(hour, minute, fn) in cbs
  {
    if cbs != [] {
      var init := cbs[..|cbs| - 1];
      MatchingExact(init, hour, minute, fn);
      assert cbs == init + [cbs[|cbs| - 1]];
    }
  }

  /** The callback map entry for a key, or none. */
  function EntryOf(m: map<TimeKey, seq<TimedFunc>>, k: TimeKey): seq<TimedFunc>
  {
    if k in m then m[k] else []
  }

  /** `rebuildCallbackMap`: each registration appended under its (hour, minute). */
  function Grouped(cbs: seq<TimedCallback>): map<TimeKey, seq<TimedFunc>>
  {
    if cbs == [] then map[]
    else
      var m := Grouped(cbs[..|cbs| - 1]);
      var last := cbs[|cbs| - 1];
      var k := TimeKey(last.hour, last.minute);
      m[k := EntryOf(m, k) + [last.fn]]
  }

  /**
   * The map the minute loop reads and the list the manual trigger builds
   * agree: the entry for a time is exactly what matches it, and a time has
   * an entry only when something matches.
   */
  lemma {:induction false} GroupedIsMatching(cbs: seq<TimedCallback>, k: TimeKey)
    ensures EntryOf(Grouped(cbs), k) == Matching(cbs, k.hour, k.minute)
    ensures k in Grouped(cbs) <==> Matching(cbs, k.hour, k.minute) != []
  {
    if cbs != [] {
      GroupedIsMatching(cbs[..|cbs| - 1], k);
    }
  }

  /** The table under the test's calls: (-1, 0) and (0, 60) are rejected, (23, 59) fires. */
  lemma RegistrationVector(a: TimedFunc, b: TimedFunc, c: TimedFunc)
    ensures var cbs := Registered(Registered(Registered([], -1, 0, a), 0, 60, b), 23, 59, c);
      cbs == [TimedCallback(23, 59, c)] && Matching(cbs, 23, 59) == [c]
  {
    var cbs := [TimedCallback(23, 59, c)];
    assert cbs[..0] == [];
  }

  /** The registered daily callbacks, the change notification and the lookup map. */
  class DailyTimers {
    var timed: seq<TimedCallback>
    /** A notification is waiting in the one-slot channel. */
    var pending: bool
    var callbackMap: map<TimeKey, seq<TimedFunc>>

    /** Every registration is in range; without a pending notification the map is current. */
    predicate Valid()
      reads this
    {
      AllInRange(timed) && (!pending ==> callbackMap == Grouped(timed))
    }

    constructor ()
      ensures Valid() && timed == [] && !pending && callbackMap == map[]
    {
      timed := [];
      pending := false;
      callbackMap := map[];
    }

    /** `RegisterDailyTimeCallback`: append an in-range callback and notify without blocking. */
    method RegisterDailyTimeCallback(hour: int, minute: int, fn: TimedFunc)
      requires Valid()
      modifies this
      ensures Valid()
      ensures timed == Registered(old(timed), hour, minute, fn)
      ensures pending == (old(pending) || InRange(hour, minute))
      ensures callbackMap == old(callbackMap)
    {
      if hour < 0 || hour > 23 || minute < 0 || minute > 59 {
        return;
      }
      RegisteredKeepsRange(timed, hour, minute, fn);
      timed := timed + [TimedCallback(hour, minute, fn)];
      pending := true;
    }

    /** The loop body of `rebuildCallbackMap` over a snapshot of the registrations. */
    static method Group(cbs: seq<TimedCallback>) returns (m: map<TimeKey, seq<TimedFunc>>)
      ensures m == Grouped(cbs)
    {
      m := map[];
      for i := 0 to |cbs|
        invariant m == Grouped(cbs[..i])
      {
        var k := TimeKey(cbs[i].hour, cbs[i].minute);
        var entry := if k in m then m[k] else [];
        m := m[k := entry + [cbs[i].fn]];
        assert cbs[..i + 1][..i] == cbs[..i];
      }
      assert cbs[..|cbs|] == cbs;
    }

    /** `rebuildCallbackMap`. */
    method RebuildCallbackMap()
      modifies this
      ensures callbackMap == Grouped(timed) && timed == old(timed) && pending == old(pending)
    {
      callbackMap := Group(timed);
    }

    /** One turn of the watcher goroutine: take a waiting notification and rebuild. */
    method WatchStep()
      requires Valid()
      modifies this
      ensures Valid() && !pending && timed == old(timed)
      ensures callbackMap == Grouped(timed)
    {
      if pending {
        pending := false;
        RebuildCallbackMap();
      }
    }

    /** The minute loop at hour:minute: the callbacks the map holds for that time. */
    method MinuteTick(hour: int, minute: int) returns (fns: seq<TimedFunc>)
      requires Valid()
      ensures fns == EntryOf(callbackMap, TimeKey(hour, minute))
      ensures !pending ==> fns == Matching(timed, hour, minute)
    {
      var k := TimeKey(hour, minute);
      fns := if k in callbackMap then callbackMap[k] else [];
      GroupedIsMatching(timed, k);
    }

    /** `TriggerDailyCallbackWithTimeout`: the matching callbacks, found by a scan. */
    method TriggerDailyCallback(hour: int, minute: int) returns (matched: seq<TimedFunc>)
      requires Valid()
      ensures matched == Matching(timed, hour, minute)
      ensures !InRange(hour, minute) ==> matched == []
    {
      var cbs := timed;
      matched := [];
      for i := 0 to |cbs|
        invariant matched == Matching(cbs[..i], hour, minute)
      {
        if cbs[i].hour == hour && cbs[i].minute == minute {
          matched := matched + [cbs[i].fn];
        }
        assert cbs[..i + 1][..i] == cbs[..i];
      }
      assert cbs[..|cbs|] == cbs;
      if !InRange(hour, minute) {
        OutOfRangeMatchesNothing(cbs, hour, minute);
      }
    }
  }
}
