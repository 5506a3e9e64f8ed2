/** Why comparing timestamps as text works: for the fixed-width
    "%Y-%m-%d %H:%M:%S" stamps, the byte-wise order SQLite uses on TEXT columns
    is the order of the seconds they name. */
module StampOrder {
  import opened Strings
  import opened Timestamps

  /** Field-by-field order of two broken-down times, in the order a format prints
      the fields. */
  predicate FieldsLess(a: Tm, b: Tm, fmt: seq<Directive>)
    decreases |fmt|
  {
    if fmt == [] then false
    else match fmt[0]
      case Lit(_) => FieldsLess(a, b, fmt[1..])
      case Conv(f) => Field(a, f) < Field(b, f) || (Field(a, f) == Field(b, f) && FieldsLess(a, b, fmt[1..]))
  }

  /** Calendar order: year, then month, day, hour, minute and second. */
  predicate Before(a: Tm, b: Tm) {
    || a.year < b.year
    || (a.year == b.year && a.month < b.month)
    || (a.year == b.year && a.month == b.month && a.day < b.day)
    || (a.year == b.year && a.month == b.month && a.day == b.day && a.hour < b.hour)
    || (a.year == b.year && a.month == b.month && a.day == b.day && a.hour == b.hour && a.minute < b.minute)
    || (a.year == b.year && a.month == b.month && a.day == b.day && a.hour == b.hour && a.minute == b.minute
        && a.second < b.second)
  }

  /** Equal zero-padded digit strings have equal values. */
  lemma DigitsInjective(a: nat, b: nat, w: nat)
    requires a < Pow10(w) && b < Pow10(w) && Digits(a, w) == Digits(b, w)
    ensures a == b
  {
    DigitsRoundTrip(a, w);
    DigitsRoundTrip(b, w);
  }

  /** One character against another, as one-character strings. */
  lemma LexLessSingle(x: char, y: char)
    ensures LexLess([x], [y]) <==> x < y
  {
    assert [x][1..] == [] && [y][1..] == [];
  }

  /** Zero-padded numbers of one width compare as text the way they compare as numbers. */
  lemma {:induction false} DigitsOrder(a: nat, b: nat, w: nat)
    requires a < Pow10(w) && b < Pow10(w)
    ensures LexLess(Digits(a, w), Digits(b, w)) <==> a < b
    decreases w
  {
    if w > 0 {
      var ha := Digits(a / 10, w - 1);
      var hb := Digits(b / 10, w - 1);
      var ca := DigitChar(a % 10);
      var cb := DigitChar(b % 10);
      assert Digits(a, w) == ha + [ca] && Digits(b, w) == hb + [cb];
      LexLessConcat(ha, [ca], hb, [cb]);
      DigitsOrder(a / 10, b / 10, w - 1);
      if ha == hb {
        DigitsInjective(a / 10, b / 10, w - 1);
      }
      LexLessSingle(ca, cb);
      DivModOrder(a, b);
    }
  }

  /** Numbers compare by their tens first, then by their last digits. */
  lemma DivModOrder(a: nat, b: nat)
    ensures a < b <==> a / 10 < b / 10 || (a / 10 == b / 10 && a % 10 < b % 10)
    ensures DigitChar(a % 10) < DigitChar(b % 10) <==> a % 10 < b % 10
  {
    assert a == 10 * (a / 10) + a % 10 && b == 10 * (b / 10) + b % 10;
  }

  /** put_time output compares as text the way the printed fields compare in order. */
  lemma {:induction false} PutTimeOrder(a: Tm, b: Tm, fmt: seq<Directive>)
    requires Printable(a) && Printable(b)
    ensures LexLess(PutTime(a, fmt), PutTime(b, fmt)) <==> FieldsLess(a, b, fmt)
    decreases |fmt|
  {
    if fmt != [] {
      PutTimeOrder(a, b, fmt[1..]);
      var ta := PutTime(a, fmt[1..]);
      var tb := PutTime(b, fmt[1..]);
      match fmt[0]
        case Conv(f) =>
          var w := Width(f);
          FieldFits(a, f);
          FieldFits(b, f);
          var da := Digits(Field(a, f), w);
          var db := Digits(Field(b, f), w);
          assert PutTime(a, fmt) == da + ta && PutTime(b, fmt) == db + tb;
          LexLessConcat(da, ta, db, tb);
          DigitsOrder(Field(a, f), Field(b, f), w);
          if da == db {
            DigitsInjective(Field(a, f), Field(b, f), w);
          }
        case Lit(c) =>
          assert PutTime(a, fmt) == [c] + ta && PutTime(b, fmt) == [c] + tb;
          LexLessConcat([c], ta, [c], tb);
          LexLessIrreflexive([c]);
    }
  }

  /** Over the timestamp format, the field order is calendar order. */
  lemma StampFieldsLess(a: Tm, b: Tm)
    ensures FieldsLess(a, b, StampFormat) <==> Before(a, b)
  {
    var f := StampFormat;
    assert FieldsLess(a, b, f[10..]) <==> a.second < b.second;
    assert FieldsLess(a, b, f[8..]) <==> a.minute < b.minute || (a.minute == b.minute && a.second < b.second);
    assert FieldsLess(a, b, f[6..]) <==> a.hour < b.hour || (a.hour == b.hour && FieldsLess(a, b, f[8..]));
    assert FieldsLess(a, b, f[4..]) <==> a.day < b.day || (a.day == b.day && FieldsLess(a, b, f[6..]));
    assert FieldsLess(a, b, f[2..]) <==> a.month < b.month || (a.month == b.month && FieldsLess(a, b, f[4..]));
  }

  /** The first of each month comes later in the year the later the month. */
  lemma MonthsGrow(y: int, m: int, n: int)
    requires 1 <= m <= n <= 13
    ensures DaysBeforeMonth(y, m) <= DaysBeforeMonth(y, n)
  {
  }

  /** The day count mktime starts from: days since 0000-01-01. */
  function DayNumber(tm: Tm): int
    requires Sane(tm)
  {
    DaysBeforeYear(tm.year) + DaysBeforeMonth(tm.year, tm.month) + tm.day - 1
  }

  /** A valid date lies inside its year. */
  lemma DayInYear(tm: Tm)
    requires Valid(tm)
    ensures DaysBeforeYear(tm.year) <= DayNumber(tm) < DaysBeforeYear(tm.year + 1)
  {
    MonthsGrow(tm.year, tm.month + 1, 13);
    DaysBeforeNextYear(tm.year);
  }

  /** Of two valid dates, the one earlier in the calendar has the smaller day number. */
  lemma DayNumberOrder(a: Tm, b: Tm)
    requires Valid(a) && Valid(b)
    requires a.year < b.year || (a.year == b.year && (a.month < b.month || (a.month == b.month && a.day < b.day)))
    ensures DayNumber(a) < DayNumber(b)
  {
    if a.year < b.year {
      DayInYear(a);
      DayInYear(b);
      DaysBeforeYearGrows(a.year + 1, b.year);
    } else if a.month < b.month {
      MonthsGrow(a.year, a.month + 1, b.month);
    }
  }

  /** mktime keeps calendar order on valid times. */
  lemma BeforeIsEarlier(a: Tm, b: Tm)
    requires Valid(a) && Valid(b) && Before(a, b)
    ensures MkTime(a) < MkTime(b)
  {
    if a.year != b.year || a.month != b.month || a.day != b.day {
      DayNumberOrder(a, b);
    }
  }

  /** A valid time printed before another as text is the earlier one. */
  lemma FormatBeforeIsEarlier(a: Tm, b: Tm)
    requires Valid(a) && Valid(b) && Printable(a) && Printable(b) && LexLess(Format(a), Format(b))
    ensures MkTime(a) < MkTime(b)
  {
    PutTimeOrder(a, b, StampFormat);
    StampFieldsLess(a, b);
    BeforeIsEarlier(a, b);
  }

  /** A stamp printed before another as text names an earlier second. */
  lemma TextBeforeIsEarlier(s: int, t: int)
    requires InRange(s) && InRange(t) && LexLess(TimeText(s), TimeText(t))
    ensures s < t
  {
    TimeTextFields(s);
    TimeTextFields(t);
    FormatBeforeIsEarlier(LocalTime(s), LocalTime(t));
  }

  /** The stamp of a second is its valid broken-down time, printed. */
  lemma TimeTextFields(t: int)
    requires InRange(t)
    ensures Valid(LocalTime(t)) && Printable(LocalTime(t)) && MkTime(LocalTime(t)) == t
    ensures TimeText(t) == Format(LocalTime(t))
  {
    LocalTimeRoundTrip(t);
    assert DaysInMonth(LocalTime(t).year, LocalTime(t).month) <= 31;
  }

  /** Distinct seconds print as distinct stamps. */
  lemma TimeTextInjective(s: int, t: int)
    requires InRange(s) && InRange(t) && TimeText(s) == TimeText(t)
    ensures s == t
  {
    TimeTextRoundTrip(s, []);
    TimeTextRoundTrip(t, []);
    assert TimeText(s) + [] == TimeText(s) && TimeText(t) + [] == TimeText(t);
  }

  /** Stamps compare as text exactly as the seconds they name compare. */
  lemma TimeTextOrder(s: int, t: int)
    requires InRange(s) && InRange(t)
    ensures LexLess(TimeText(s), TimeText(t)) <==> s < t
    ensures LexLe(TimeText(s), TimeText(t)) <==> s <= t
  {
    if LexLess(TimeText(s), TimeText(t)) {
      TextBeforeIsEarlier(s, t);
    }
    if LexLess(TimeText(t), TimeText(s)) {
      TextBeforeIsEarlier(t, s);
    }
    if TimeText(s) == TimeText(t) {
      TimeTextInjective(s, t);
    } else {
      LexLessTotal(TimeText(s), TimeText(t));
    }
  }
}
