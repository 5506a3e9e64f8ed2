/** The SQLite-backed store (Task5/src/data_aggregator.cpp). Each resolution's
    table, `timestamp TEXT PRIMARY KEY, temperature REAL`, is a finite map from
    timestamp text to temperature. Each SQL statement the store issues becomes an
    operation on that map: INSERT OR REPLACE, AVG over a BETWEEN range, MIN, MAX,
    and DELETE below a cutoff. Text is compared byte by byte, which is SQLite's
    BINARY collation. */
module TableAggregator {
  import opened Strings
  import opened Timestamps
  import opened StampOrder
  import FlatFileAggregator

  /** The rows of one table. The primary key allows one row per timestamp. */
  type Rows = map<string, real>

  /** `k BETWEEN lo AND hi` on TEXT: both ends included. */
  predicate Between(k: string, lo: string, hi: string) {
    LexLe(lo, k) && LexLe(k, hi)
  }

  // ---- Least and greatest keys (MIN, MAX, ORDER BY timestamp) ----

  predicate IsLeast(k: string, keys: set<string>) {
    k in keys && forall j | j in keys :: LexLe(k, j)
  }

  predicate IsGreatest(k: string, keys: set<string>) {
    k in keys && forall j | j in keys :: LexLe(j, k)
  }

  lemma LeastIsUnique(keys: set<string>)
    ensures forall a, b | IsLeast(a, keys) && IsLeast(b, keys) :: a == b
  {
    forall a, b | IsLeast(a, keys) && IsLeast(b, keys)
      ensures a == b
    {
      if a != b {
        LexLessAsymmetric(a, b);
      }
    }
  }

  lemma GreatestIsUnique(keys: set<string>)
    ensures forall a, b | IsGreatest(a, keys) && IsGreatest(b, keys) :: a == b
  {
    forall a, b | IsGreatest(a, keys) && IsGreatest(b, keys)
      ensures a == b
    {
      if a != b {
        LexLessAsymmetric(a, b);
      }
    }
  }

  /** Every non-empty set of keys has a least one. */
  lemma {:induction false} LeastExists(keys: set<string>)
    requires keys != {}
    ensures exists k :: IsLeast(k, keys)
    decreases |keys|
  {
    var x :| x in keys;
    if keys == {x} {
      assert IsLeast(x, keys);
    } else {
      LeastExists(keys - {x});
      var m :| IsLeast(m, keys - {x});
      if LexLe(m, x) {
        assert IsLeast(m, keys);
      } else {
        LexLessTotal(m, x);
        forall j | j in keys
          ensures LexLe(x, j)
        {
          if j != x {
            LexLeTransitive(x, m, j);
          }
        }
        assert IsLeast(x, keys);
      }
    }
  }

  /** Every non-empty set of keys has a greatest one. */
  lemma {:induction false} GreatestExists(keys: set<string>)
    requires keys != {}
    ensures exists k :: IsGreatest(k, keys)
    decreases |keys|
  {
    var x :| x in keys;
    if keys == {x} {
      assert IsGreatest(x, keys);
    } else {
      GreatestExists(keys - {x});
      var m :| IsGreatest(m, keys - {x});
      if LexLe(x, m) {
        assert IsGreatest(m, keys);
      } else {
        LexLessTotal(m, x);
        forall j | j in keys
          ensures LexLe(j, x)
        {
          if j != x {
            LexLeTransitive(j, m, x);
          }
        }
        assert IsGreatest(x, keys);
      }
    }
  }

  function Least(keys: set<string>): (r: string)
    requires keys != {}
    ensures IsLeast(r, keys)
  {
    LeastExists(keys);
    LeastIsUnique(keys);
    var k :| IsLeast(k, keys); k
  }

  function Greatest(keys: set<string>): (r: string)
    requires keys != {}
    ensures IsGreatest(r, keys)
  {
    GreatestExists(keys);
    GreatestIsUnique(keys);
    var k :| IsGreatest(k, keys); k
  }

  // ---- The queries ----

  /** The keys `WHERE timestamp BETWEEN lo AND hi` selects. */
  function Window(rows: Rows, lo: string, hi: string): (r: set<string>)
    ensures r <= rows.Keys
  {
    set k | k in rows && Between(k, lo, hi)
  }

  /** The total of the temperatures under `keys`, added in key order. */
  function SumOver(rows: Rows, keys: set<string>): real
    requires keys <= rows.Keys
    decreases |keys|
  {
    if keys == {} then 0.0
    else
      var k := Least(keys);
      rows[k] + SumOver(rows, keys - {k})
  }

  /** `SELECT AVG(temperature) … WHERE timestamp BETWEEN lo AND hi`, read with
      sqlite3_column_double. AVG over no rows is NULL, which reads as 0.0. */
  function AvgBetween(rows: Rows, lo: string, hi: string): real {
    var w := Window(rows, lo, hi);
    if w == {} then 0.0 else SumOver(rows, w) / (|w| as real)
  }

  /** `SELECT MIN(timestamp)`: None for the NULL an empty table yields. */
  function MinKey(rows: Rows): (r: Option<string>)
    ensures r.None? <==> rows == map[]
  {
    if rows.Keys == {} then None else Some(Least(rows.Keys))
  }

  /** `SELECT MAX(timestamp)`: None for the NULL an empty table yields. */
  function MaxKey(rows: Rows): (r: Option<string>)
    ensures r.None? <==> rows == map[]
  {
    if rows.Keys == {} then None else Some(Greatest(rows.Keys))
  }

  /** A stored stamp read with get_time and mktime. None when the stream fails or
      mktime returns its error value -1. */
  function StampTime(text: string): Option<int> {
    var p := GetTime(text);
    if !p.ok then None
    else if MkTime(p.tm) == -1 then None
    else Some(MkTime(p.tm))
  }

  /** getFirstDate: the time of the least stamp, or `now` when the table is empty or
      that stamp does not parse. */
  function FirstDateOf(rows: Rows, now: int): int {
    match MinKey(rows)
      case None => now
      case Some(k) =>
        match StampTime(k)
          case None => now
          case Some(t) => t
  }

  /** getLastDate: the time of the greatest stamp, or the default time when the table
      is empty or that stamp does not parse. */
  function LastDateOf(rows: Rows, res: TimeResolution, now: int): int {
    match MaxKey(rows)
      case None => FlatFileAggregator.DefaultTime(res, now)
      case Some(k) =>
        match StampTime(k)
          case None => FlatFileAggregator.DefaultTime(res, now)
          case Some(t) => t
  }

  /** The key addTemperature writes. An empty timestamp becomes the clock at
      full-second precision. Any other timestamp is bound as a C string, so it is
      cut at its first NUL and is otherwise not checked. */
  function StoredStamp(timestamp: string, now: int): string
    requires timestamp == [] ==> InRange(now)
  {
    CString(if timestamp == [] then TimeText(now) else timestamp)
  }

  // ---- Retention: DELETE … WHERE timestamp < datetime('now', '-1 <unit>') ----

  /** The clocks for which the model prints the cutoff: at least a year and a day
      after the first printable second. */
  predicate CutoffInRange(now: int) {
    MinTime + 366 * SecondsPerDay <= now <= MaxTime
  }

  /** datetime's '-1 year', '-1 month' and '-1 day' modifiers: one unit off the
      field, the rest kept. mktime then carries an impossible date such as
      February 29 or 30 into March, as SQLite normalises it. */
  function ShiftBack(tm: Tm, res: TimeResolution): Tm {
    match res
      case Day => tm.(year := tm.year - 1)
      case Hour => if tm.month == 1 then tm.(year := tm.year - 1, month := 12) else tm.(month := tm.month - 1)
      case Current => tm.(day := tm.day - 1)
  }

  /** The second the cutoff names. */
  function CutoffTime(res: TimeResolution, now: int): int
    requires CutoffInRange(now)
  {
    LocalTimeRoundTrip(now);
    MkTime(ShiftBack(LocalTime(now), res))
  }

  /** The month before a broken-down time's month, as (year, month). */
  function PreviousMonth(tm: Tm): (int, int) {
    if tm.month == 1 then (tm.year - 1, 12) else (tm.year, tm.month - 1)
  }

  /** Two times with the same clock differ by whole days. */
  lemma SameClock(a: Tm, b: Tm)
    requires Sane(a) && Sane(b) && a.hour == b.hour && a.minute == b.minute && a.second == b.second
    ensures MkTime(a) - MkTime(b) == (DayNumber(a) - DayNumber(b)) * SecondsPerDay
  {
  }

  /** Every month has 28 to 31 days. */
  lemma MonthLength(y: int, m: int)
    requires 1 <= m <= 12
    ensures 28 <= DaysInMonth(y, m) <= 31
  {
  }

  /** The same date a year earlier lies 365 or 366 days back. */
  lemma YearBack(tm: Tm)
    requires Valid(tm)
    ensures Sane(ShiftBack(tm, Day))
    ensures 365 <= DayNumber(tm) - DayNumber(ShiftBack(tm, Day)) <= 366
  {
    var y := tm.year;
    DaysBeforeNextYear(y - 1);
    assert !(IsLeap(y) && IsLeap(y - 1));
    assert DayNumber(tm) - DayNumber(ShiftBack(tm, Day))
      == DaysInYear(y - 1) + DaysBeforeMonth(y, tm.month) - DaysBeforeMonth(y - 1, tm.month);
  }

  /** The same day of the previous month lies that month's length back. */
  lemma MonthBack(tm: Tm)
    requires Valid(tm)
    ensures Sane(ShiftBack(tm, Hour))
    ensures var (y, m) := PreviousMonth(tm);
      1 <= m <= 12 && DayNumber(tm) - DayNumber(ShiftBack(tm, Hour)) == DaysInMonth(y, m)
  {
    if tm.month == 1 {
      DaysBeforeNextYear(tm.year - 1);
    }
  }

  /** How far back the cutoff lies. A day is 24 hours. A month is the length of the
      previous month, 28 to 31 days. A year is 365 or 366 days. None of these
      depends on the store's timeThreshold. */
  lemma CutoffAge(res: TimeResolution, now: int)
    requires CutoffInRange(now)
    ensures InRange(CutoffTime(res, now))
    ensures res == Current ==> now - CutoffTime(res, now) == SecondsPerDay
    ensures res == Hour ==> var (y, m) := PreviousMonth(LocalTime(now));
      1 <= m <= 12 && now - CutoffTime(res, now) == DaysInMonth(y, m) * SecondsPerDay
    ensures res == Day ==> 365 * SecondsPerDay <= now - CutoffTime(res, now) <= 366 * SecondsPerDay
  {
    LocalTimeRoundTrip(now);
    var tm := LocalTime(now);
    var back := ShiftBack(tm, res);
    match res
      case Current =>
      case Hour =>
        MonthBack(tm);
        var (y, m) := PreviousMonth(tm);
        MonthLength(y, m);
      case Day =>
        YearBack(tm);
    SameClock(tm, back);
    var d := DayNumber(tm) - DayNumber(back);
    assert now - CutoffTime(res, now) == d * SecondsPerDay;
  }

  /** The cutoff text datetime() prints. */
  function Cutoff(res: TimeResolution, now: int): string
    requires CutoffInRange(now)
  {
    CutoffAge(res, now);
    TimeText(CutoffTime(res, now))
  }

  /** The rows `DELETE … WHERE timestamp < cutoff` leaves. */
  function Retained(rows: Rows, cutoff: string): (r: Rows)
    ensures r.Keys <= rows.Keys
    ensures forall k | k in r :: r[k] == rows[k]
  {
    map k | k in rows && !LexLess(k, cutoff) :: rows[k]
  }

  /** One resolution's table on one connection. */
  class TableStore {
    const resolution: TimeResolution
    /** Whether getDatabase() opened a connection (db != nullptr). */
    const connected: bool
    /** Whether statements on the table compile (sqlite3_prepare_v2 returns SQLITE_OK). */
    const prepares: bool
    /** Set by the constructor, never read by removeOutdated. */
    const timeThreshold: int
    var rows: Rows

    constructor (res: TimeResolution, connected: bool, prepares: bool, existing: Rows)
      ensures resolution == res && this.connected == connected && this.prepares == prepares
      ensures timeThreshold == FlatFileAggregator.Threshold(res)
      ensures rows == existing
    {
      resolution := res;
      this.connected := connected;
      this.prepares := prepares;
      rows := existing;
      match res
        case Day => timeThreshold := 24 * 365 * SecondsPerHour;
        case Hour => timeThreshold := 24 * 30 * SecondsPerHour;
        case Current => timeThreshold := 24 * SecondsPerHour;
    }

    /** Whether statements reach the table. */
    predicate Live()
      reads this
    {
      connected && prepares
    }

    /** INSERT OR REPLACE: the stamp now holds `temperature` and every other row
        is unchanged. */
    method AddTemperature(temperature: real, timestamp: string, now: int)
      requires timestamp == [] ==> InRange(now)
      modifies this
      ensures rows == if Live() then old(rows)[StoredStamp(timestamp, now) := temperature] else old(rows)
    {
      if !connected {
        return;
      }
      var timestampToInsert: string;
      if timestamp == [] {
        timestampToInsert := TimeText(now);
      } else {
        timestampToInsert := timestamp;
      }
      if !prepares {
        return;
      }
      rows := rows[CString(timestampToInsert) := temperature];
    }

    /** The average over the stamps between the printed start and end times, or 0. */
    method GetAverageTemperature(startTime: int, endTime: int) returns (r: real)
      requires InRange(startTime) && InRange(endTime)
      ensures r == if Live() then AvgBetween(rows, TimeText(startTime), TimeText(endTime)) else 0.0
    {
      if !connected {
        return 0.0;
      }
      if !prepares {
        return 0.0;
      }
      var startTimeStr := TimeText(startTime);
      var endTimeStr := TimeText(endTime);
      r := AvgBetween(rows, startTimeStr, endTimeStr);
    }

    /** The time of the least stamp, or `now`. */
    method GetFirstDate(now: int) returns (r: int)
      ensures r == if Live() then FirstDateOf(rows, now) else now
    {
      if !connected || !prepares {
        return now;
      }
      var timestamp := MinKey(rows);
      if timestamp.Some? {
        var parsed := GetTime(timestamp.value);
        if parsed.ok {
          var epochTime := MkTime(parsed.tm);
          if epochTime != -1 {
            return epochTime;
          }
        }
      }
      return now;
    }

    /** The time of the greatest stamp, or the default time. */
    method GetLastDate(now: int) returns (r: int)
      ensures r == if Live() then LastDateOf(rows, resolution, now) else FlatFileAggregator.DefaultTime(resolution, now)
    {
      if !connected || !prepares {
        return FlatFileAggregator.DefaultTime(resolution, now);
      }
      var timestamp := MaxKey(rows);
      if timestamp.Some? {
        var parsed := GetTime(timestamp.value);
        if parsed.ok {
          var epochTime := MkTime(parsed.tm);
          if epochTime != -1 {
            return epochTime;
          }
        }
      }
      return FlatFileAggregator.DefaultTime(resolution, now);
    }

    /** Deletes the rows stamped before the cutoff for this resolution. */
    method RemoveOutdated(now: int)
      requires CutoffInRange(now)
      modifies this
      ensures rows == if Live() then Retained(old(rows), Cutoff(resolution, now)) else old(rows)
    {
      if !connected || !prepares {
        return;
      }
      var cutoff := Cutoff(resolution, now);
      rows := Retained(rows, cutoff);
    }
  }

  // ---- Properties ----

  /** A stamp is the printed form of a second mktime can return. */
  ghost predicate IsStamp(k: string) {
    exists t | InRange(t) && t != -1 :: k == TimeText(t)
  }

  /** Printed stamps read back as the second they were printed from. */
  lemma StampTimeOfText(t: int)
    requires InRange(t) && t != -1
    ensures StampTime(TimeText(t)) == Some(t)
  {
    TimeTextRoundTrip(t, []);
    assert TimeText(t) + [] == TimeText(t);
  }

  /** With no timestamp, addTemperature stores the clock itself, to the second and
      without rounding to the resolution. */
  lemma EmptyStampIsClock(now: int)
    requires InRange(now) && now != -1
    ensures StoredStamp([], now) == TimeText(now)
    ensures StampTime(StoredStamp([], now)) == Some(now)
  {
    TimeTextFields(now);
    FormatAvoids(LocalTime(now), '\0');
    StampTimeOfText(now);
  }

  /** A given timestamp without NUL characters is stored as it is, checked or not. */
  lemma GivenStampIsKept(timestamp: string, now: int)
    requires timestamp != [] && '\0' !in timestamp
    ensures StoredStamp(timestamp, now) == timestamp
  {
  }

  /** On printed stamps, BETWEEN is the closed time window. */
  lemma WindowIsTimeWindow(rows: Rows, lo: int, hi: int, t: int)
    requires InRange(lo) && InRange(hi) && InRange(t)
    ensures TimeText(t) in Window(rows, TimeText(lo), TimeText(hi)) <==> TimeText(t) in rows && lo <= t <= hi
  {
    TimeTextOrder(lo, t);
    TimeTextOrder(t, hi);
  }

  /** The sum does not depend on the order the rows are added in: any one of them
      can be taken first. */
  lemma {:induction false} SumOverRemove(rows: Rows, keys: set<string>, k: string)
    requires keys <= rows.Keys && k in keys
    ensures SumOver(rows, keys) == rows[k] + SumOver(rows, keys - {k})
    decreases |keys|
  {
    var m := Least(keys);
    if m != k {
      SumOverRemove(rows, keys - {m}, k);
      SumOverRemove(rows, keys - {k}, m);
      assert keys - {m} - {k} == keys - {k} - {m};
    }
  }

  /** Two tables that agree on `keys` have the same sum over them. */
  lemma {:induction false} SumOverAgree(a: Rows, b: Rows, keys: set<string>)
    requires keys <= a.Keys && keys <= b.Keys
    requires forall k | k in keys :: a[k] == b[k]
    ensures SumOver(a, keys) == SumOver(b, keys)
    decreases |keys|
  {
    if keys != {} {
      SumOverAgree(a, b, keys - {Least(keys)});
    }
  }

  /** n copies of x added up. */
  function Repeated(x: real, n: nat): (r: real)
    ensures r == x * (n as real)
  {
    if n == 0 then 0.0 else Repeated(x, n - 1) + x
  }

  /** Bounds on each value bound the sum. */
  lemma {:induction false} SumOverBounds(rows: Rows, keys: set<string>, low: real, high: real)
    requires keys <= rows.Keys
    requires forall k | k in keys :: low <= rows[k] <= high
    ensures Repeated(low, |keys|) <= SumOver(rows, keys) <= Repeated(high, |keys|)
    decreases |keys|
  {
    if keys != {} {
      var k := Least(keys);
      var rest := keys - {k};
      SumOverBounds(rows, rest, low, high);
      assert |keys| == |rest| + 1;
    }
  }

  /** A total bounded by n times two values gives a quotient bounded by them. */
  lemma DivBounds(s: real, n: real, low: real, high: real)
    requires n > 0.0 && low * n <= s <= high * n
    ensures low <= s / n <= high
  {
    var q := s / n;
    assert q * n == s;
    assert (q - low) * n >= 0.0 && (high - q) * n >= 0.0;
  }

  /** The average lies between the least and the greatest value in the window, and is
      0 over an empty window. */
  lemma AverageWithinBounds(rows: Rows, lo: string, hi: string, low: real, high: real)
    requires forall k | k in Window(rows, lo, hi) :: low <= rows[k] <= high
    ensures Window(rows, lo, hi) == {} ==> AvgBetween(rows, lo, hi) == 0.0
    ensures Window(rows, lo, hi) != {} ==> low <= AvgBetween(rows, lo, hi) <= high
  {
    var w := Window(rows, lo, hi);
    if w != {} {
      SumOverBounds(rows, w, low, high);
      assert Repeated(low, |w|) == low * (|w| as real) && Repeated(high, |w|) == high * (|w| as real);
      DivBounds(SumOver(rows, w), |w| as real, low, high);
    }
  }

  /** Writing a row outside the window leaves the average as it was. */
  lemma InsertOutsideWindow(rows: Rows, k: string, v: real, lo: string, hi: string)
    requires !Between(k, lo, hi)
    ensures AvgBetween(rows[k := v], lo, hi) == AvgBetween(rows, lo, hi)
  {
    var w := Window(rows, lo, hi);
    assert Window(rows[k := v], lo, hi) == w;
    SumOverAgree(rows[k := v], rows, w);
  }

  /** Writing a new row inside the window adds its value to the sum and one to the count. */
  lemma InsertInsideWindow(rows: Rows, k: string, v: real, lo: string, hi: string)
    requires k !in rows && Between(k, lo, hi)
    ensures var w := Window(rows, lo, hi);
      && Window(rows[k := v], lo, hi) == w + {k}
      && SumOver(rows[k := v], w + {k}) == SumOver(rows, w) + v
  {
    var w := Window(rows, lo, hi);
    var r := rows[k := v];
    assert Window(r, lo, hi) == w + {k};
    SumOverRemove(r, w + {k}, k);
    assert w + {k} - {k} == w;
    SumOverAgree(r, rows, w);
  }

  /** Writing one stamp twice keeps one row, holding the later value. */
  lemma InsertTwice(rows: Rows, k: string, v1: real, v2: real)
    ensures rows[k := v1][k := v2] == rows[k := v2]
    ensures |rows[k := v2].Keys| == |rows.Keys| + (if k in rows then 0 else 1)
  {
    if k !in rows {
      assert rows[k := v2].Keys == rows.Keys + {k};
    } else {
      assert rows[k := v2].Keys == rows.Keys;
    }
  }

  /** Over printed stamps, getFirstDate is the earliest stored second. */
  lemma FirstDateIsEarliest(rows: Rows, now: int)
    requires rows != map[] && forall k | k in rows :: IsStamp(k)
    ensures InRange(FirstDateOf(rows, now)) && TimeText(FirstDateOf(rows, now)) in rows
    ensures forall t | InRange(t) && TimeText(t) in rows :: FirstDateOf(rows, now) <= t
  {
    var m := Least(rows.Keys);
    var t0 :| InRange(t0) && t0 != -1 && m == TimeText(t0);
    StampTimeOfText(t0);
    forall t | InRange(t) && TimeText(t) in rows
      ensures t0 <= t
    {
      TimeTextOrder(t0, t);
    }
  }

  /** Over printed stamps, getLastDate is the latest stored second. */
  lemma LastDateIsLatest(rows: Rows, res: TimeResolution, now: int)
    requires rows != map[] && forall k | k in rows :: IsStamp(k)
    ensures InRange(LastDateOf(rows, res, now)) && TimeText(LastDateOf(rows, res, now)) in rows
    ensures forall t | InRange(t) && TimeText(t) in rows :: t <= LastDateOf(rows, res, now)
  {
    var m := Greatest(rows.Keys);
    var t0 :| InRange(t0) && t0 != -1 && m == TimeText(t0);
    StampTimeOfText(t0);
    forall t | InRange(t) && TimeText(t) in rows
      ensures t <= t0
    {
      TimeTextOrder(t, t0);
    }
  }

  /** Over printed stamps, retention keeps exactly the rows at or after the cutoff
      second. */
  lemma RetainedByTime(rows: Rows, res: TimeResolution, now: int, t: int)
    requires CutoffInRange(now) && InRange(t)
    ensures TimeText(t) in Retained(rows, Cutoff(res, now)) <==> TimeText(t) in rows && CutoffTime(res, now) <= t
  {
    CutoffAge(res, now);
    TimeTextOrder(t, CutoffTime(res, now));
  }
}
