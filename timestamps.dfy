/** Civil time as both stores see it: the canonical "%Y-%m-%d %H:%M:%S" text that
    std::get_time reads and std::put_time writes, the broken-down std::tm, mktime
    (broken-down time to seconds) and localtime (seconds to broken-down time).
    Time is an integer number of seconds on a single timeline: the local time
    zone is taken to be UTC, with no daylight saving. */
module Timestamps {
  import opened Strings

  /** The three views of the signal (TimeResolution in both data_aggregator.h). */
  datatype TimeResolution = Day | Hour | Current

  const SecondsPerHour: int := 3600
  const SecondsPerDay: int := 86400

  /** A broken-down time (std::tm) with the full year and a 1-based month. */
  datatype Tm = Tm(year: int, month: int, day: int, hour: int, minute: int, second: int)

  /** `std::tm t{}`: tm_year 0 is 1900, tm_mon 0 is January, tm_mday is 0. */
  const ZeroTm: Tm := Tm(1900, 1, 0, 0, 0, 0)

  // ---- Calendar ----

  predicate IsLeap(y: int) {
    y % 4 == 0 && (y % 100 != 0 || y % 400 == 0)
  }

  function DaysInYear(y: int): int {
    if IsLeap(y) then 366 else 365
  }

  /** Days from 0000-01-01 to y-01-01 in the proleptic Gregorian calendar. */
  function DaysBeforeYear(y: nat): int {
    365 * y + (y + 3) / 4 - (y + 99) / 100 + (y + 399) / 400
  }

  /** Days from January 1 to the first of month `m` (m == 13: the whole year). */
  function DaysBeforeMonth(y: int, m: int): int
    requires 1 <= m <= 13
  {
    (if m == 1 then 0 else if m == 2 then 31 else if m == 3 then 59
     else if m == 4 then 90 else if m == 5 then 120 else if m == 6 then 151
     else if m == 7 then 181 else if m == 8 then 212 else if m == 9 then 243
     else if m == 10 then 273 else if m == 11 then 304 else if m == 12 then 334
     else 365)
    + (if m > 2 && IsLeap(y) then 1 else 0)
  }

  function DaysInMonth(y: int, m: int): int
    requires 1 <= m <= 12
  {
    DaysBeforeMonth(y, m + 1) - DaysBeforeMonth(y, m)
  }

  /** Day number of 1970-01-01, the epoch of time_t. */
  const EpochDay: int := 719528

  lemma DaysBeforeNextYear(y: nat)
    ensures DaysBeforeYear(y + 1) == DaysBeforeYear(y) + DaysInYear(y)
  {
    assert DaysBeforeYear(y + 1) == 365 * y + 365 + (y + 4) / 4 - (y + 100) / 100 + (y + 400) / 400;
    LeapDays(y);
  }

  /** Of the three counts in DaysBeforeYear, the ones that grow from y to y + 1 add
      up to the leap day of year y. */
  lemma LeapDays(y: nat)
    ensures ((y + 4) / 4 - (y + 3) / 4) - ((y + 100) / 100 - (y + 99) / 100)
      + ((y + 400) / 400 - (y + 399) / 400) == DaysInYear(y) - 365
  {
    CeilingStep(y, 4);
    CeilingStep(y, 100);
    CeilingStep(y, 400);
    LeapDivisors(y);
  }

  lemma LeapDivisors(y: nat)
    ensures y % 400 == 0 ==> y % 100 == 0
    ensures y % 100 == 0 ==> y % 4 == 0
  {
    if y % 400 == 0 {
      assert y == 100 * (4 * (y / 400));
    }
    if y % 100 == 0 {
      assert y == 4 * (25 * (y / 100));
    }
  }

  /** The count of multiples of `d` among 1..y+1 exceeds that among 1..y exactly when
      `d` divides y. */
  lemma CeilingStep(y: nat, d: nat)
    requires d == 4 || d == 100 || d == 400
    ensures (y + d) / d - (y + d - 1) / d == if y % d == 0 then 1 else 0
  {
    assert y == d * (y / d) + y % d;
    assert (y + d) / d == y / d + 1;
    if y % d == 0 {
      assert (y + d - 1) / d == y / d;
    } else {
      assert (y + d - 1) / d == y / d + 1;
    }
  }

  lemma {:induction false} DaysBeforeYearGrows(a: nat, b: nat)
    requires a <= b
    ensures DaysBeforeYear(a) + 365 * (b - a) <= DaysBeforeYear(b)
    decreases b - a
  {
    if a < b {
      DaysBeforeYearGrows(a, b - 1);
      DaysBeforeNextYear(b - 1);
    }
  }

  // ---- mktime ----

  /** What get_time can leave in a std::tm: a year that fits four digits and a real month. */
  predicate Sane(tm: Tm) {
    0 <= tm.year <= 9999 && 1 <= tm.month <= 12
  }

  /** mktime: seconds since the epoch. Out-of-range days, hours, minutes and seconds
      carry into the next unit, as mktime normalises them. */
  function MkTime(tm: Tm): int
    requires Sane(tm)
  {
    (DaysBeforeYear(tm.year) + DaysBeforeMonth(tm.year, tm.month) + tm.day - 1 - EpochDay) * SecondsPerDay
    + tm.hour * SecondsPerHour + tm.minute * 60 + tm.second
  }

  // ---- localtime ----

  /** The years whose times the model breaks down and prints (four-digit years). */
  const MinYear: nat := 1000
  const MaxYear: nat := 9999

  /** 1000-01-01 00:00:00 and 9999-12-31 23:59:59. */
  const MinTime: int := (365243 - EpochDay) * SecondsPerDay
  const MaxTime: int := (3652425 - EpochDay) * SecondsPerDay - 1

  predicate InRange(t: int) {
    MinTime <= t <= MaxTime
  }

  /** The year holding day `d` counted from January 1 of year `y`, and the day within it. */
  function YearOf(d: nat, y: nat): (r: (nat, nat))
    decreases d
  {
    if d < DaysInYear(y) then (y, d) else YearOf(d - DaysInYear(y), y + 1)
  }

  lemma {:induction false} YearOfCorrect(d: nat, y: nat)
    ensures var (y', r) := YearOf(d, y);
      y <= y' && r < DaysInYear(y') && DaysBeforeYear(y') + r == DaysBeforeYear(y) + d
    decreases d
  {
    if d >= DaysInYear(y) {
      YearOfCorrect(d - DaysInYear(y), y + 1);
      DaysBeforeNextYear(y);
    }
  }

  /** The month holding day `r` of year `y` counted from the first of month `m`, and the
      day within that month. */
  function MonthOf(y: int, r: nat, m: int): (res: (int, nat))
    requires 1 <= m <= 12
    decreases r
  {
    if m == 12 || r < DaysInMonth(y, m) then (m, r) else MonthOf(y, r - DaysInMonth(y, m), m + 1)
  }

  lemma {:induction false} MonthOfCorrect(y: int, r: nat, m: int)
    requires 1 <= m <= 12
    requires DaysBeforeMonth(y, m) + r < DaysInYear(y)
    ensures var (m', r') := MonthOf(y, r, m);
      1 <= m' <= 12 && r' < DaysInMonth(y, m') && DaysBeforeMonth(y, m') + r' == DaysBeforeMonth(y, m) + r
    decreases 12 - m
  {
    if !(m == 12 || r < DaysInMonth(y, m)) {
      MonthOfCorrect(y, r - DaysInMonth(y, m), m + 1);
    }
  }

  /** localtime: the broken-down form of a time in range. */
  function LocalTime(t: int): Tm
    requires InRange(t)
  {
    var dayNumber := t / SecondsPerDay + EpochDay;
    var secondOfDay := t % SecondsPerDay;
    var (y, dayOfYear) := YearOf(dayNumber - DaysBeforeYear(MinYear), MinYear);
    var (m, dayOfMonth) := MonthOf(y, dayOfYear, 1);
    Tm(y, m, dayOfMonth + 1, secondOfDay / SecondsPerHour, secondOfDay % SecondsPerHour / 60, secondOfDay % 60)
  }

  /** A broken-down time that names one real second of a four-digit year. */
  predicate Valid(tm: Tm) {
    && MinYear <= tm.year <= MaxYear
    && 1 <= tm.month <= 12
    && 1 <= tm.day <= DaysInMonth(tm.year, tm.month)
    && 0 <= tm.hour < 24 && 0 <= tm.minute < 60 && 0 <= tm.second < 60
  }

  /** localtime and mktime are inverse: breaking a time down and putting it back
      together gives the same second, and the broken-down form is a valid date. */
  lemma LocalTimeRoundTrip(t: int)
    requires InRange(t)
    ensures Valid(LocalTime(t)) && MkTime(LocalTime(t)) == t
  {
    var dayNumber := t / SecondsPerDay + EpochDay;
    var secondOfDay := t % SecondsPerDay;
    assert t == (dayNumber - EpochDay) * SecondsPerDay + secondOfDay;
    assert DaysBeforeYear(MinYear) == 365243 && DaysBeforeYear(MaxYear + 1) == 3652425;
    var d := dayNumber - DaysBeforeYear(MinYear);
    YearOfCorrect(d, MinYear);
    var (y, dayOfYear) := YearOf(d, MinYear);
    if y > MaxYear {
      DaysBeforeYearGrows(MaxYear + 1, y);
      assert false;
    }
    MonthOfCorrect(y, dayOfYear, 1);
    var (m, dayOfMonth) := MonthOf(y, dayOfYear, 1);
    var tm := LocalTime(t);
    assert tm == Tm(y, m, dayOfMonth + 1, secondOfDay / 3600, secondOfDay % 3600 / 60, secondOfDay % 60);
    assert DaysBeforeYear(y) + DaysBeforeMonth(y, m) + dayOfMonth == dayNumber;
    assert secondOfDay == secondOfDay / 3600 * 3600 + secondOfDay % 3600 / 60 * 60 + secondOfDay % 60;
  }

  // ---- Truncation to a resolution ----

  /** getCurrentTimestamp's rounding: HOUR zeroes minutes and seconds, DAY also the
      hour, CURRENT keeps full-second precision. */
  function Truncate(tm: Tm, res: TimeResolution): (r: Tm)
    ensures r.year == tm.year && r.month == tm.month && r.day == tm.day
    ensures res == Current ==> r == tm
    ensures res == Hour ==> r.hour == tm.hour && r.minute == 0 && r.second == 0
    ensures res == Day ==> r.hour == 0 && r.minute == 0 && r.second == 0
  {
    match res
      case Hour => tm.(minute := 0, second := 0)
      case Day => tm.(hour := 0, minute := 0, second := 0)
      case Current => tm
  }

  /** Zeroing the fields of the broken-down time is rounding the second down to the
      start of its hour or day; CURRENT leaves the second alone. */
  lemma TruncateAligns(t: int, res: TimeResolution)
    requires InRange(t)
    ensures Valid(Truncate(LocalTime(t), res))
    ensures MkTime(Truncate(LocalTime(t), res)) == t - t % UnitOf(res)
  {
    LocalTimeRoundTrip(t);
    LocalTimeClock(t);
    ClockFields(t);
    MkTimeTruncate(LocalTime(t), res);
  }

  /** The clock fields localtime fills in. */
  lemma LocalTimeClock(t: int)
    requires InRange(t)
    ensures var tm := LocalTime(t);
      tm.hour == t % SecondsPerDay / 3600 && tm.minute == t % SecondsPerDay % 3600 / 60
      && tm.second == t % SecondsPerDay % 60
  {
  }

  /** The seconds into the hour and into the day, from the clock fields. */
  lemma ClockFields(t: int)
    ensures var s := t % SecondsPerDay;
      s / 3600 * 3600 + s % 3600 / 60 * 60 + s % 60 == t % SecondsPerDay
      && s % 3600 / 60 * 60 + s % 60 == t % SecondsPerHour
  {
    var s := t % SecondsPerDay;
    assert s % 3600 == s % 3600 / 60 * 60 + s % 3600 % 60;
    assert s % 3600 % 60 == s % 60 by {
      assert s == s / 3600 * 3600 + s % 3600;
      assert s / 3600 * 3600 == 60 * (s / 3600 * 60);
    }
    assert t % 3600 == s % 3600 by {
      assert t == t / SecondsPerDay * SecondsPerDay + s;
      assert t / SecondsPerDay * SecondsPerDay == 3600 * (t / SecondsPerDay * 24);
    }
  }

  /** Zeroing fields takes their seconds off mktime's result and keeps a date valid. */
  lemma MkTimeTruncate(tm: Tm, res: TimeResolution)
    requires Valid(tm)
    ensures Valid(Truncate(tm, res))
    ensures MkTime(Truncate(tm, res)) == MkTime(tm) - match res
      case Hour => tm.minute * 60 + tm.second
      case Day => tm.hour * 3600 + tm.minute * 60 + tm.second
      case Current => 0
  {
  }

  /** The length of the unit a resolution rounds to. */
  function UnitOf(res: TimeResolution): int {
    match res
      case Hour => SecondsPerHour
      case Day => SecondsPerDay
      case Current => 1
  }

  // ---- Text form: put_time and get_time walking "%Y-%m-%d %H:%M:%S" ----

  /** The conversions the timestamp format uses: %Y, %m, %d, %H, %M and %S. */
  datatype Conversion = YearField | MonthField | DayField | HourField | MinuteField | SecondField

  /** One step of a format: a conversion, or a character to print and to match. */
  datatype Directive = Conv(field: Conversion) | Lit(c: char)

  /** "%Y-%m-%d" and "%H:%M:%S". */
  const DateFormat: seq<Directive> := [Conv(YearField), Lit('-'), Conv(MonthField), Lit('-'), Conv(DayField)]
  const ClockFormat: seq<Directive> := [Conv(HourField), Lit(':'), Conv(MinuteField), Lit(':'), Conv(SecondField)]

  /** "%Y-%m-%d %H:%M:%S", the format both stores print and parse their timestamps with. */
  const StampFormat: seq<Directive> := DateFormat + [Lit(' ')] + ClockFormat

  /** Digits a conversion prints and reads: four for the year, two for the others. */
  function Width(f: Conversion): nat {
    if f == YearField then 4 else 2
  }

  /** The length of what put_time prints for a format. */
  function FormatWidth(fmt: seq<Directive>): nat
    decreases |fmt|
  {
    if fmt == [] then 0
    else (if fmt[0].Conv? then Width(fmt[0].field) else 1) + FormatWidth(fmt[1..])
  }

  /** The field of `tm` a conversion names. */
  function Field(tm: Tm, f: Conversion): int {
    match f
      case YearField => tm.year
      case MonthField => tm.month
      case DayField => tm.day
      case HourField => tm.hour
      case MinuteField => tm.minute
      case SecondField => tm.second
  }

  /** `tm` with the field a conversion names set to `v`. */
  function SetField(tm: Tm, f: Conversion, v: int): (r: Tm)
    ensures Field(r, f) == v
    ensures forall g | g != f :: Field(r, g) == Field(tm, g)
  {
    match f
      case YearField => tm.(year := v)
      case MonthField => tm.(month := v)
      case DayField => tm.(day := v)
      case HourField => tm.(hour := v)
      case MinuteField => tm.(minute := v)
      case SecondField => tm.(second := v)
  }

  /** The values get_time stores for a conversion; any other value fails the stream
      (four digits never exceed 9999). */
  predicate Accepts(f: Conversion, v: int) {
    match f
      case YearField => 0 <= v <= 9999
      case MonthField => 1 <= v <= 12
      case DayField => 1 <= v <= 31
      case HourField => v <= 23
      case MinuteField => v <= 59
      case SecondField => v <= 60
  }

  function DigitChar(d: int): char
    requires 0 <= d <= 9
  {
    (48 + d) as char
  }

  predicate IsDigit(c: char) {
    '0' <= c <= '9'
  }

  function DigitValue(c: char): (r: int)
    requires IsDigit(c)
    ensures 0 <= r <= 9
  {
    c as int - 48
  }

  /** Whether every character of `s` is a decimal digit (checked from the right, the
      way DigitsValue consumes them). */
  predicate AllDigits(s: string)
    decreases |s|
  {
    s == [] || (IsDigit(s[|s| - 1]) && AllDigits(s[..|s| - 1]))
  }

  lemma {:induction false} AllDigitsAt(s: string, k: nat)
    requires AllDigits(s) && k < |s|
    ensures IsDigit(s[k])
    decreases |s|
  {
    if k < |s| - 1 {
      AllDigitsAt(s[..|s| - 1], k);
    }
  }

  function Pow10(n: nat): (r: nat)
    ensures r >= 1
  {
    if n == 0 then 1 else 10 * Pow10(n - 1)
  }

  /** `n` printed with exactly `w` digits, zero-padded on the left. */
  function Digits(n: nat, w: nat): (r: string)
    ensures |r| == w && AllDigits(r)
  {
    if w == 0 then []
    else
      var r := Digits(n / 10, w - 1) + [DigitChar(n % 10)];
      assert r[..w - 1] == Digits(n / 10, w - 1);
      r
  }

  /** The value of a run of decimal digits. */
  function DigitsValue(s: string): (r: nat)
    requires AllDigits(s)
    ensures r < Pow10(|s|)
  {
    if s == [] then 0 else 10 * DigitsValue(s[..|s| - 1]) + DigitValue(s[|s| - 1])
  }

  /** Reading back `w` printed digits gives the number, when it fits in `w` digits. */
  lemma {:induction false} DigitsRoundTrip(n: nat, w: nat)
    requires n < Pow10(w)
    ensures DigitsValue(Digits(n, w)) == n
  {
    if w > 0 {
      var s := Digits(n, w);
      assert s[..w - 1] == Digits(n / 10, w - 1);
      DigitsRoundTrip(n / 10, w - 1);
    }
  }

  /** Fields put_time can print in the fixed-width format. */
  predicate Printable(tm: Tm) {
    && 0 <= tm.year <= 9999 && 1 <= tm.month <= 12 && 1 <= tm.day <= 31
    && 0 <= tm.hour <= 23 && 0 <= tm.minute <= 59 && 0 <= tm.second <= 60
  }

  /** put_time(&tm, fmt): a conversion prints its field zero-padded to its width,
      any other character is copied. */
  function PutTime(tm: Tm, fmt: seq<Directive>): (r: string)
    requires Printable(tm)
    ensures |r| == FormatWidth(fmt)
    decreases |fmt|
  {
    if fmt == [] then []
    else match fmt[0]
      case Conv(f) => Digits(Field(tm, f), Width(f)) + PutTime(tm, fmt[1..])
      case Lit(c) => [c] + PutTime(tm, fmt[1..])
  }

  /** put_time prints digits and the format's own characters, nothing else. */
  lemma {:induction false} PutTimeCharacters(tm: Tm, fmt: seq<Directive>)
    requires Printable(tm)
    ensures forall k | 0 <= k < |PutTime(tm, fmt)| :: IsDigit(PutTime(tm, fmt)[k]) || Lit(PutTime(tm, fmt)[k]) in fmt
    decreases |fmt|
  {
    if fmt != [] {
      PutTimeCharacters(tm, fmt[1..]);
      var r := PutTime(tm, fmt);
      var head := match fmt[0] case Conv(f) => Digits(Field(tm, f), Width(f)) case Lit(c) => [c];
      assert r == head + PutTime(tm, fmt[1..]);
      forall k | 0 <= k < |r| ensures IsDigit(r[k]) || Lit(r[k]) in fmt {
        if k >= |head| {
          assert r[k] == PutTime(tm, fmt[1..])[k - |head|];
        } else if fmt[0].Conv? {
          AllDigitsAt(head, k);
        }
      }
    }
  }

  /** A character that is neither a digit nor one of the format's separators is never
      printed in a timestamp. */
  lemma FormatAvoids(tm: Tm, c: char)
    requires Printable(tm) && !IsDigit(c) && c != '-' && c != ' ' && c != ':'
    ensures c !in Format(tm)
  {
    PutTimeCharacters(tm, StampFormat);
    assert Lit(c) !in StampFormat;
  }

  /** Printing two formats one after the other prints their concatenation. */
  lemma {:induction false} PutTimeAppend(tm: Tm, a: seq<Directive>, b: seq<Directive>)
    requires Printable(tm)
    ensures PutTime(tm, a + b) == PutTime(tm, a) + PutTime(tm, b)
    decreases |a|
  {
    if a != [] {
      assert (a + b)[0] == a[0] && (a + b)[1..] == a[1..] + b;
      PutTimeAppend(tm, a[1..], b);
    } else {
      assert a + b == b;
    }
  }

  /** A stamp is a date of digits and '-', one space, then a clock of digits and ':'. */
  lemma FormatLayout(tm: Tm)
    requires Printable(tm)
    ensures Format(tm)[10] == ' '
    ensures forall k | 0 <= k < 10 :: IsDigit(Format(tm)[k]) || Format(tm)[k] == '-'
    ensures forall k | 11 <= k < 19 :: IsDigit(Format(tm)[k]) || Format(tm)[k] == ':'
  {
    var date := PutTime(tm, DateFormat);
    var clock := PutTime(tm, ClockFormat);
    FormatSplits(tm);
    DateCharacters(tm);
    ClockCharacters(tm);
    forall k | 0 <= k < 10 ensures IsDigit(Format(tm)[k]) || Format(tm)[k] == '-' {
      assert Format(tm)[k] == date[k];
    }
    forall k | 11 <= k < 19 ensures IsDigit(Format(tm)[k]) || Format(tm)[k] == ':' {
      assert Format(tm)[k] == clock[k - 11];
    }
  }

  /** A stamp is its date, a space and its clock. */
  lemma FormatSplits(tm: Tm)
    requires Printable(tm)
    ensures |PutTime(tm, DateFormat)| == 10
    ensures Format(tm) == PutTime(tm, DateFormat) + " " + PutTime(tm, ClockFormat)
  {
    PutTimeAppend(tm, DateFormat, [Lit(' ')] + ClockFormat);
    PutTimeAppend(tm, [Lit(' ')], ClockFormat);
    assert DateFormat + ([Lit(' ')] + ClockFormat) == StampFormat;
    assert PutTime(tm, [Lit(' ')]) == " ";
    assert FormatWidth(DateFormat[2..]) == 5;
  }

  /** The date prints digits and '-' only. */
  lemma DateCharacters(tm: Tm)
    requires Printable(tm)
    ensures forall k | 0 <= k < |PutTime(tm, DateFormat)| :: IsDigit(PutTime(tm, DateFormat)[k]) || PutTime(tm, DateFormat)[k] == '-'
  {
    PutTimeCharacters(tm, DateFormat);
  }

  /** The clock prints digits and ':' only. */
  lemma ClockCharacters(tm: Tm)
    requires Printable(tm)
    ensures forall k | 0 <= k < |PutTime(tm, ClockFormat)| :: IsDigit(PutTime(tm, ClockFormat)[k]) || PutTime(tm, ClockFormat)[k] == ':'
  {
    PutTimeCharacters(tm, ClockFormat);
  }

  /** The outcome of `stream >> std::get_time(&tm, fmt)`: the fields read before a
      failure stay in `tm`; `ok` is `!stream.fail()`. */
  datatype TmParse = TmParse(tm: Tm, ok: bool)

  /** get_time(&tm, fmt) over `s`: a conversion reads exactly its width of digits and
      stores their value when the conversion accepts it; any other format character
      must match the next input character. The first mismatch fails the stream. */
  function Scan(s: string, fmt: seq<Directive>, tm: Tm): (r: TmParse)
    requires Sane(tm)
    ensures Sane(r.tm)
    decreases |s| + |fmt|
  {
    if fmt == [] then TmParse(tm, true)
    else match fmt[0]
      case Conv(f) =>
        var w := Width(f);
        if |s| < w || !AllDigits(s[..w]) || !Accepts(f, DigitsValue(s[..w])) then TmParse(tm, false)
        else Scan(s[w..], fmt[1..], SetField(tm, f, DigitsValue(s[..w])))
      case Lit(c) =>
        if s == [] || s[0] != c then TmParse(tm, false)
        else Scan(s[1..], fmt[1..], tm)
  }

  /** The fields Scan fills in when it reads what put_time printed: those the format
      has a conversion for come from the printed time, the others stay as they were. */
  function Assign(acc: Tm, tm: Tm, fmt: seq<Directive>): Tm
    decreases |fmt|
  {
    if fmt == [] then acc
    else match fmt[0]
      case Conv(f) => Assign(SetField(acc, f, Field(tm, f)), tm, fmt[1..])
      case Lit(_) => Assign(acc, tm, fmt[1..])
  }

  lemma {:induction false} AssignFields(acc: Tm, tm: Tm, fmt: seq<Directive>, f: Conversion)
    ensures Field(Assign(acc, tm, fmt), f) == if Conv(f) in fmt then Field(tm, f) else Field(acc, f)
    decreases |fmt|
  {
    if fmt != [] {
      assert fmt == [fmt[0]] + fmt[1..];
      match fmt[0]
        case Conv(g) => AssignFields(SetField(acc, g, Field(tm, g)), tm, fmt[1..], f);
        case Lit(_) => AssignFields(acc, tm, fmt[1..], f);
    }
  }

  /** get_time reads back what put_time printed with the same format, whatever follows. */
  lemma {:induction false} ScanPutTime(tm: Tm, fmt: seq<Directive>, rest: string, acc: Tm)
    requires Printable(tm) && Sane(acc)
    ensures Scan(PutTime(tm, fmt) + rest, fmt, acc) == TmParse(Assign(acc, tm, fmt), true)
    decreases |fmt|
  {
    if fmt != [] {
      var s := PutTime(tm, fmt) + rest;
      match fmt[0]
        case Conv(f) =>
          var w := Width(f);
          var digits := Digits(Field(tm, f), w);
          assert s == digits + (PutTime(tm, fmt[1..]) + rest);
          assert s[..w] == digits && s[w..] == PutTime(tm, fmt[1..]) + rest;
          FieldFits(tm, f);
          DigitsRoundTrip(Field(tm, f), w);
          ScanPutTime(tm, fmt[1..], rest, SetField(acc, f, Field(tm, f)));
        case Lit(c) =>
          assert s[0] == c && s[1..] == PutTime(tm, fmt[1..]) + rest;
          ScanPutTime(tm, fmt[1..], rest, acc);
    }
  }

  /** A printable field fits the width put_time gives it. */
  lemma FieldFits(tm: Tm, f: Conversion)
    requires Printable(tm)
    ensures 0 <= Field(tm, f) < Pow10(Width(f)) && Accepts(f, Field(tm, f))
  {
    assert Pow10(2) == 100 && Pow10(4) == 10000;
  }

  /** get_time looks no further than the printed width of the format. */
  lemma {:induction false} ScanPrefix(s: string, fmt: seq<Directive>, tm: Tm, n: nat)
    requires Sane(tm) && FormatWidth(fmt) <= n <= |s|
    ensures Scan(s[..n], fmt, tm) == Scan(s, fmt, tm)
    decreases |fmt|
  {
    if fmt != [] {
      match fmt[0]
        case Conv(f) =>
          var w := Width(f);
          assert s[..n][..w] == s[..w] && s[..n][w..] == s[w..][..n - w];
          if AllDigits(s[..w]) && Accepts(f, DigitsValue(s[..w])) {
            ScanPrefix(s[w..], fmt[1..], SetField(tm, f, DigitsValue(s[..w])), n - w);
          }
        case Lit(c) =>
          assert s[..n][1..] == s[1..][..n - 1];
          ScanPrefix(s[1..], fmt[1..], tm, n - 1);
    }
  }

  /** The timestamp format prints 19 characters. */
  lemma StampFormatWidth()
    ensures FormatWidth(StampFormat) == 19
  {
    var f := StampFormat;
    assert FormatWidth(f[10..]) == 2;
    assert FormatWidth(f[8..]) == 5;
    assert FormatWidth(f[6..]) == 8;
    assert FormatWidth(f[4..]) == 11;
    assert FormatWidth(f[2..]) == 14;
  }

  /** put_time(tm, "%Y-%m-%d %H:%M:%S"). */
  function Format(tm: Tm): (r: string)
    requires Printable(tm)
    ensures |r| == 19
  {
    StampFormatWidth();
    PutTime(tm, StampFormat)
  }

  /** `stream >> std::get_time(&t, "%Y-%m-%d %H:%M:%S")` on a zeroed tm. */
  function GetTime(s: string): (r: TmParse)
    ensures Sane(r.tm)
  {
    Scan(s, StampFormat, ZeroTm)
  }

  /** Reading back what put_time printed gives the same fields, whatever follows them. */
  lemma GetTimeFormat(tm: Tm, rest: string)
    requires Printable(tm)
    ensures GetTime(Format(tm) + rest) == TmParse(tm, true)
  {
    ScanPutTime(tm, StampFormat, rest, ZeroTm);
    var f := StampFormat;
    assert f[0] == Conv(YearField) && f[2] == Conv(MonthField) && f[4] == Conv(DayField);
    assert f[6] == Conv(HourField) && f[8] == Conv(MinuteField) && f[10] == Conv(SecondField);
    AssignFields(ZeroTm, tm, f, YearField);
    AssignFields(ZeroTm, tm, f, MonthField);
    AssignFields(ZeroTm, tm, f, DayField);
    AssignFields(ZeroTm, tm, f, HourField);
    AssignFields(ZeroTm, tm, f, MinuteField);
    AssignFields(ZeroTm, tm, f, SecondField);
  }

  /** get_time looks at the first 19 characters only. */
  lemma GetTimePrefix(s: string)
    requires |s| >= 19
    ensures GetTime(s[..19]) == GetTime(s)
  {
    StampFormatWidth();
    ScanPrefix(s, StampFormat, ZeroTm, 19);
  }

  /** The text put_time prints for a time in range: localtime then the format. */
  function TimeText(t: int): (r: string)
    requires InRange(t)
    ensures |r| == 19
  {
    LocalTimeRoundTrip(t);
    assert DaysInMonth(LocalTime(t).year, LocalTime(t).month) <= 31;
    Format(LocalTime(t))
  }

  /** Printing a time and reading it back gives the same second. */
  lemma TimeTextRoundTrip(t: int, rest: string)
    requires InRange(t)
    ensures GetTime(TimeText(t) + rest).ok
    ensures MkTime(GetTime(TimeText(t) + rest).tm) == t
  {
    LocalTimeRoundTrip(t);
    GetTimeFormat(LocalTime(t), rest);
  }
}
