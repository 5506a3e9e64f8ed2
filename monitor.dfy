/** Task4's monitor: the scanner that pulls the last reading out of each chunk read
    from the serial port into the CURRENT store, the roll-up that averages one store
    into fixed-width buckets of the next (CURRENT into HOUR hourly, HOUR into DAY
    daily), and the retention pass over all three stores. */
module Monitor {
  import opened Strings
  import opened Timestamps
  import opened FlatFileAggregator

  // ---- The reading pattern \[([-+]?\d{1,2}\.\d+)\] ----

  /** The length of the run of decimal digits starting at `i`. */
  function DigitRun(s: string, i: nat): (r: nat)
    requires i <= |s|
    ensures i + r <= |s|
    ensures i + r < |s| ==> !IsDigit(s[i + r])
    decreases |s| - i
  {
    if i < |s| && IsDigit(s[i]) then 1 + DigitRun(s, i + 1) else 0
  }

  /** Every character of the run is a digit. */
  lemma {:induction false} DigitRunDigits(s: string, i: nat, k: nat)
    requires i <= k < |s| && k < i + DigitRun(s, i)
    ensures IsDigit(s[k])
    decreases k - i
  {
    assert DigitRun(s, i) == 1 + DigitRun(s, i + 1);
    if k > i {
      DigitRunDigits(s, i + 1, k);
    }
  }

  /** A match of the pattern starting at `i`: the index of its closing ']'. Optional
      sign, one or two digits, '.', at least one digit; the pattern has one way to
      match at a given start, so no backtracking is needed. */
  function MatchEnd(s: string, i: nat): (r: Option<nat>)
    ensures r.Some? ==> i + 4 <= r.value < |s| && s[i] == '[' && s[r.value] == ']'
  {
    if i >= |s| || s[i] != '[' then None
    else
      var j := if i + 1 < |s| && (s[i + 1] == '+' || s[i + 1] == '-') then i + 2 else i + 1;
      var d := DigitRun(s, j);
      if d < 1 || d > 2 || j + d >= |s| || s[j + d] != '.' then None
      else
        var f := DigitRun(s, j + d + 1);
        var e := j + d + 1 + f;
        if f < 1 || e >= |s| || s[e] != ']' then None else Some(e)
  }

  /** A match has no '[' after its first character. */
  lemma MatchInterior(s: string, i: nat, k: nat)
    requires MatchEnd(s, i).Some? && i < k < MatchEnd(s, i).value
    ensures s[k] != '['
  {
    var j := if i + 1 < |s| && (s[i + 1] == '+' || s[i + 1] == '-') then i + 2 else i + 1;
    var d := DigitRun(s, j);
    if j <= k < j + d {
      DigitRunDigits(s, j, k);
    } else if j + d + 1 <= k {
      DigitRunDigits(s, j + d + 1, k);
    }
  }

  /** The start of the rightmost match at or after `i`. */
  function LastMatchStart(s: string, i: nat): Option<nat>
    decreases |s| - i
  {
    if i >= |s| then None
    else match LastMatchStart(s, i + 1)
      case Some(k) => Some(k)
      case None => if MatchEnd(s, i).Some? then Some(i) else None
  }

  /** The number a match starting at `k` captures. */
  function CaptureAt(s: string, k: nat): Option<string> {
    match MatchEnd(s, k)
      case None => None
      case Some(e) => Some(s[k + 1..e])
  }

  /** The number captured by the last match in `s`: the `lastMatch.str(1)` the
      sregex_iterator loop leaves behind. */
  function LastMatchOf(s: string): Option<string> {
    match LastMatchStart(s, 0)
      case None => None
      case Some(k) => CaptureAt(s, k)
  }

  /** LastMatchStart finds the rightmost match, and finds none only when there is none. */
  lemma {:induction false} LastMatchStartIsRightmost(s: string, i: nat)
    ensures LastMatchStart(s, i).Some? ==>
      var k := LastMatchStart(s, i).value;
      i <= k < |s| && MatchEnd(s, k).Some? && forall j | k < j < |s| :: MatchEnd(s, j).None?
    ensures LastMatchStart(s, i).None? <==> forall j | i <= j < |s| :: MatchEnd(s, j).None?
    decreases |s| - i
  {
    if i < |s| {
      LastMatchStartIsRightmost(s, i + 1);
    }
  }

  /** Once a match ending at `e` starts at `i`, the next one can start no earlier than
      e + 1: a match has no '[' after its first character. */
  lemma {:induction false} NoMatchInside(s: string, i: nat, e: nat, k: nat)
    requires MatchEnd(s, i) == Some(e) && i < k <= e + 1
    ensures LastMatchStart(s, k) == LastMatchStart(s, e + 1)
    decreases e + 1 - k
  {
    if k <= e {
      NoMatchInside(s, i, e, k + 1);
      if k < e {
        MatchInterior(s, i, k);
      }
    }
  }

  /** The sregex_iterator loop: walk the matches left to right, jumping past each one,
      and keep the last. */
  method ScanLastMatch(s: string) returns (lastMatch: Option<string>)
    ensures lastMatch == LastMatchOf(s)
  {
    lastMatch := None;
    var i := 0;
    while i < |s|
      invariant 0 <= i <= |s|
      invariant LastMatchOf(s) == match LastMatchStart(s, i)
        case Some(k) => CaptureAt(s, k)
        case None => lastMatch
      decreases |s| - i
    {
      match MatchEnd(s, i)
        case Some(e) =>
          NoMatchInside(s, i, e, i + 1);
          lastMatch := Some(s[i + 1..e]);
          i := e + 1;
        case None =>
          i := i + 1;
    }
  }

  /** A run of `|t|` digits starting at `i`, ended by the end of `s` or a non-digit. */
  lemma {:induction false} DigitRunExact(s: string, i: nat, n: nat)
    requires i + n <= |s|
    requires forall k | i <= k < i + n :: IsDigit(s[k])
    requires i + n < |s| ==> !IsDigit(s[i + n])
    ensures DigitRun(s, i) == n
    decreases n
  {
    if n > 0 {
      DigitRunExact(s, i + 1, n - 1);
    }
  }

  /** The pattern reads a chunk ending in a well-formed reading as that reading,
      whatever precedes it: "[21.5]" after "T=[19.0] T=" yields "21.5". */
  lemma {:induction false} ChunkEndingInReading(p: string, sign: string, whole: string, frac: string)
    requires sign == [] || sign == "+" || sign == "-"
    requires 1 <= |whole| <= 2 && forall k | 0 <= k < |whole| :: IsDigit(whole[k])
    requires 1 <= |frac| && forall k | 0 <= k < |frac| :: IsDigit(frac[k])
    ensures LastMatchOf(p + "[" + (sign + whole + "." + frac) + "]") == Some(sign + whole + "." + frac)
  {
    var x := sign + whole + "." + frac;
    var s := p + "[" + x + "]";
    var i := |p|;
    ReadingText(x, sign, whole, frac);
    Bracketed(p, x);
    MatchedAt(s, i, x, |sign|, |whole|, |frac|);
    ReadingIsLast(p, x, sign, whole, frac);
    assert LastMatchStart(s, i) == Some(i);
    LastMatchStartStable(s, 0, i);
  }

  /** A reading laid out character by character between brackets at `i` is matched
      up to its ']'. */
  lemma MatchedAt(s: string, i: nat, x: string, sl: nat, w: nat, f: nat)
    requires |s| == i + |x| + 2 && s[i] == '[' && s[|s| - 1] == ']'
    requires forall k | i < k < |s| - 1 :: s[k] == x[k - i - 1]
    requires |x| == sl + w + 1 + f && sl <= 1 && 1 <= w <= 2 && 1 <= f
    requires (x[0] == '+' || x[0] == '-') <==> sl == 1
    requires forall k | sl <= k < sl + w :: IsDigit(x[k])
    requires x[sl + w] == '.'
    requires forall k | sl + w + 1 <= k < |x| :: IsDigit(x[k])
    ensures MatchEnd(s, i) == Some(|s| - 1)
  {
    var j := i + 1 + sl;
    assert s[i + 1] == x[0];
    DigitsInside(s, i + 1, x, sl, w);
    DigitRunExact(s, j, w);
    DigitsInside(s, i + 1, x, sl + w + 1, f);
    DigitRunExact(s, j + w + 1, f);
    assert s[j + w] == x[sl + w];
    MatchEndFrom(s, i, j, w, f);
  }

  /** MatchEnd from where the sign, the whole digits, the point and the fraction
      digits sit. */
  lemma MatchEndFrom(s: string, i: nat, j: nat, w: nat, f: nat)
    requires j == i + 1 || j == i + 2
    requires j + w + 1 + f < |s| && s[i] == '['
    requires (s[i + 1] == '+' || s[i + 1] == '-') <==> j == i + 2
    requires 1 <= w <= 2 && DigitRun(s, j) == w && s[j + w] == '.'
    requires 1 <= f && DigitRun(s, j + w + 1) == f && s[j + w + 1 + f] == ']'
    ensures MatchEnd(s, i) == Some(j + w + 1 + f)
  {
  }

  /** "[" + x + "]" after `p`: where the brackets and the characters of `x` sit. */
  lemma Bracketed(p: string, x: string)
    ensures var s := p + "[" + x + "]";
      && |s| == |p| + |x| + 2 && s[|p|] == '[' && s[|s| - 1] == ']' && s[|p| + 1..|s| - 1] == x
      && forall k | |p| < k < |s| - 1 :: s[k] == x[k - |p| - 1]
  {
    var s := p + "[" + x + "]";
    assert s[|p| + 1..|s| - 1] == x;
  }

  /** The characters of "<sign><whole>.<frac>", position by position. */
  lemma ReadingText(x: string, sign: string, whole: string, frac: string)
    requires x == sign + whole + "." + frac
    requires sign == [] || sign == "+" || sign == "-"
    requires 1 <= |whole| && forall k | 0 <= k < |whole| :: IsDigit(whole[k])
    requires forall k | 0 <= k < |frac| :: IsDigit(frac[k])
    ensures |x| == |sign| + |whole| + 1 + |frac|
    ensures (x[0] == '+' || x[0] == '-') <==> sign != []
    ensures forall k | |sign| <= k < |sign| + |whole| :: IsDigit(x[k])
    ensures x[|sign| + |whole|] == '.'
    ensures forall k | |sign| + |whole| + 1 <= k < |x| :: IsDigit(x[k])
  {
    assert sign == [] ==> x[0] == whole[0];
    forall k | |sign| <= k < |sign| + |whole|
      ensures IsDigit(x[k])
    {
      assert x[k] == whole[k - |sign|];
    }
    forall k | |sign| + |whole| + 1 <= k < |x|
      ensures IsDigit(x[k])
    {
      assert x[k] == frac[k - |sign| - |whole| - 1];
    }
  }

  /** Digits of `x` at [from, from + n) are digits of `s` once `x` sits at `o`,
      and so is whatever follows them inside `x`. */
  lemma DigitsInside(s: string, o: nat, x: string, from: nat, n: nat)
    requires o + |x| <= |s| && from + n <= |x|
    requires forall k | o <= k < o + |x| :: s[k] == x[k - o]
    requires forall k | from <= k < from + n :: IsDigit(x[k])
    requires from + n < |x| ==> !IsDigit(x[from + n])
    ensures forall k | o + from <= k < o + from + n :: IsDigit(s[k])
    ensures from + n < |x| ==> !IsDigit(s[o + from + n])
  {
    forall k | o + from <= k < o + from + n
      ensures IsDigit(s[k])
    {
      assert s[k] == x[k - o];
    }
  }

  /** No match starts after the reading's '['. */
  lemma {:induction false} ReadingIsLast(p: string, x: string, sign: string, whole: string, frac: string)
    requires x == sign + whole + "." + frac
    requires sign == [] || sign == "+" || sign == "-"
    requires forall k | 0 <= k < |whole| :: IsDigit(whole[k])
    requires forall k | 0 <= k < |frac| :: IsDigit(frac[k])
    ensures LastMatchStart(p + "[" + x + "]", |p| + 1) == None
  {
    var s := p + "[" + x + "]";
    DigitsAreNotBrackets(whole);
    DigitsAreNotBrackets(frac);
    assert '[' !in x;
    forall k | |p| + 1 <= k < |s|
      ensures s[k] != '['
    {
      if k < |s| - 1 {
        assert s[k] == x[k - |p| - 1];
      }
    }
    NoOpenBracketNoMatch(s, |p| + 1);
  }

  lemma DigitsAreNotBrackets(d: string)
    requires forall k | 0 <= k < |d| :: IsDigit(d[k])
    ensures '[' !in d
  {
  }

  /** Without a '[' from `i` on, no match starts there. */
  lemma {:induction false} NoOpenBracketNoMatch(s: string, i: nat)
    requires forall k | i <= k < |s| :: s[k] != '['
    ensures LastMatchStart(s, i) == None
    decreases |s| - i
  {
    if i < |s| {
      NoOpenBracketNoMatch(s, i + 1);
    }
  }

  /** Earlier starting points find the same rightmost match. */
  lemma {:induction false} LastMatchStartStable(s: string, i: nat, j: nat)
    requires i <= j && LastMatchStart(s, j).Some?
    ensures LastMatchStart(s, i) == LastMatchStart(s, j)
    decreases j - i
  {
    if i < j {
      LastMatchStartStable(s, i + 1, j);
    }
  }

  /** Three digits before the point are not a reading. */
  lemma ThreeDigitWholePartRejected()
    ensures LastMatchOf("[100.5]") == None
  {
    var s := "[100.5]";
    DigitRunExact(s, 1, 3);
    assert MatchEnd(s, 0) == None;
    LastMatchStartIsRightmost(s, 0);
  }

  /** What one chunk read from the port adds to the CURRENT store: the last reading
      in its C-string view, stamped with the clock, if stof accepts it. */
  function IngestedLines(chunk: string, res: TimeResolution, numbers: FloatText, now: int): seq<string>
    requires InRange(now)
  {
    match LastMatchOf(CString(chunk))
      case None => []
      case Some(text) =>
        match ReadWith(numbers.read, text)
          case None => []
          case Some(v) => SplitOn(Entry(StampToWrite([], res, now), numbers, v), '\n')
  }

  /** One pass of monitorCurrentTemperature's loop, after the read. */
  method IngestChunk(store: FileStore, chunk: string, now: int)
    requires InRange(now)
    modifies store
    ensures store.lines == old(store.lines) + IngestedLines(chunk, store.resolution, store.numbers, now)
  {
    var bufferStr := CString(chunk);
    var lastMatch := ScanLastMatch(bufferStr);
    if lastMatch.Some? {
      var lastTemperature := ReadWith(store.numbers.read, lastMatch.value);
      if lastTemperature.Some? {
        store.AddTemperature(lastTemperature.value, [], now);
      }
    }
  }

  /** A chunk ending in a well-formed reading stores exactly that reading, stamped with
      the clock at the store's resolution. */
  lemma IngestStoresLastReading(p: string, sign: string, whole: string, frac: string,
                                res: TimeResolution, numbers: FloatText, v: real, now: int)
    requires InRange(now) && '\0' !in p
    requires sign == [] || sign == "+" || sign == "-"
    requires 1 <= |whole| <= 2 && forall k | 0 <= k < |whole| :: IsDigit(whole[k])
    requires 1 <= |frac| && forall k | 0 <= k < |frac| :: IsDigit(frac[k])
    requires ReadWith(numbers.read, sign + whole + "." + frac) == Some(v) && '\n' !in Show(numbers, v)
    ensures IngestedLines(p + "[" + (sign + whole + "." + frac) + "]", res, numbers, now)
      == [Entry(CurrentTimestamp(res, now), numbers, v)]
  {
    var x := sign + whole + "." + frac;
    var chunk := p + "[" + x + "]";
    assert '\0' !in chunk by {
      NoNulInReading(sign, whole, frac);
      NoCharInConcat(p, "[", '\0');
      NoCharInConcat(p + "[", x, '\0');
      NoCharInConcat(p + "[" + x, "]", '\0');
    }
    assert CString(chunk) == chunk;
    ChunkEndingInReading(p, sign, whole, frac);
    var stamp := CurrentTimestamp(res, now);
    CurrentTimestampHasNoNewline(res, now);
    NoNewlineInEntry(stamp, numbers, v);
    SplitWithoutSeparator(Entry(stamp, numbers, v), '\n');
  }

  /** A reading is signs, digits and a point: no NUL. */
  lemma NoNulInReading(sign: string, whole: string, frac: string)
    requires sign == [] || sign == "+" || sign == "-"
    requires forall k | 0 <= k < |whole| :: IsDigit(whole[k])
    requires forall k | 0 <= k < |frac| :: IsDigit(frac[k])
    ensures '\0' !in sign + whole + "." + frac
  {
    NoCharInConcat(sign, whole, '\0');
    NoCharInConcat(sign + whole, ".", '\0');
    NoCharInConcat(sign + whole + ".", frac, '\0');
  }

  lemma CurrentTimestampHasNoNewline(res: TimeResolution, now: int)
    requires InRange(now)
    ensures '\n' !in CurrentTimestamp(res, now)
  {
    TruncateAligns(now, res);
    var tm := Truncate(LocalTime(now), res);
    assert DaysInMonth(tm.year, tm.month) <= 31;
    FormatAvoids(tm, '\n');
  }

  lemma NoNewlineInEntry(stamp: string, numbers: FloatText, v: real)
    requires '\n' !in stamp && '\n' !in Show(numbers, v)
    ensures '\n' !in Entry(stamp, numbers, v)
  {
    var e := Entry(stamp, numbers, v);
    forall k | 0 <= k < |e| ensures e[k] != '\n' {
      if k < |stamp| { assert e[k] == stamp[k]; }
      else if k < |stamp| + 2 { }
      else if k < |e| - 1 { assert e[k] == Show(numbers, v)[k - |stamp| - 2]; }
    }
  }

  // ---- Roll-up ----

  /** The fields a roll-up step clears: minutes and seconds, and the hour for a
      24-hour step. */
  function StepResolution(stepHours: int): TimeResolution {
    if stepHours == 24 then Day else Hour
  }

  /** Round down to the hour, or to the day for a 24-hour step: what localtime, clearing
      the fields below the step and mktime do together (AlignByCalendar). */
  function Align(t: int, stepHours: int): (r: int)
    requires InRange(t)
    ensures InRange(r) && r <= t && r % SecondsPerHour == 0
    ensures stepHours == 24 ==> r % SecondsPerDay == 0 && t < r + SecondsPerDay
    ensures stepHours != 24 ==> t < r + SecondsPerHour
  {
    if stepHours == 24 then
      DayStart(t);
      t - t % SecondsPerDay
    else
      HourStart(t);
      t - t % SecondsPerHour
  }

  /** The midnight starting the day of `t` lies in range and on the hour. */
  lemma DayStart(t: int)
    requires InRange(t)
    ensures var r := t - t % SecondsPerDay;
      InRange(r) && r % SecondsPerHour == 0 && r % SecondsPerDay == 0 && t < r + SecondsPerDay
  {
    var q := t / SecondsPerDay;
    assert t - t % SecondsPerDay == SecondsPerDay * q;
    WholeDays(q);
    assert MinTime / SecondsPerDay == 365243 - EpochDay;
    assert MinTime / SecondsPerDay <= q;
  }

  lemma WholeDays(q: int)
    ensures (SecondsPerDay * q) % SecondsPerHour == 0 && (SecondsPerDay * q) % SecondsPerDay == 0
  {
    assert SecondsPerDay * q == SecondsPerHour * (24 * q);
  }

  /** The hour starting at or before `t` lies in range. */
  lemma HourStart(t: int)
    requires InRange(t)
    ensures var r := t - t % SecondsPerHour; InRange(r) && r % SecondsPerHour == 0 && t < r + SecondsPerHour
  {
    var q := t / SecondsPerHour;
    assert t - t % SecondsPerHour == SecondsPerHour * q;
    assert MinTime / SecondsPerHour == 24 * (365243 - EpochDay);
    assert MinTime / SecondsPerHour <= q;
  }

  /** localtime, clear the minutes and seconds (and the hour for a 24-hour step), mktime:
      the time rounds down to the step's unit. */
  lemma AlignByCalendar(t: int, stepHours: int)
    requires InRange(t)
    ensures Sane(Truncate(LocalTime(t), StepResolution(stepHours)))
    ensures MkTime(Truncate(LocalTime(t), StepResolution(stepHours))) == Align(t, stepHours)
  {
    TruncateAligns(t, StepResolution(stepHours));
    assert UnitOf(StepResolution(stepHours)) == if stepHours == 24 then 86400 else 3600;
  }

  /** Where monitorTemperature starts: the later of the source's first date and one
      step past the destination's last date, aligned; the clock when localtime fails. */
  function RollUpStart(firstTime: int, lastTime: int, stepHours: int, now: int): int
    requires InRange(now)
  {
    var startTime := if firstTime > lastTime then firstTime else lastTime;
    if InRange(startTime) then Align(startTime, stepHours) else now
  }

  /** The bucket starts: from `start`, one step apart, while before `end`. */
  function Buckets(start: int, end: int, step: int): (r: seq<int>)
    requires step > 0
    ensures r == [] <==> start >= end
    ensures r != [] ==> r[0] == start && r[|r| - 1] < end <= r[|r| - 1] + step
    ensures forall k | 0 <= k < |r| :: start <= r[k] < end
    decreases end - start
  {
    if start >= end then [] else [start] + Buckets(start + step, end, step)
  }

  /** The k-th bucket starts k steps after the first. */
  lemma {:induction false} BucketsAreSteps(start: int, end: int, step: int)
    requires step > 0
    ensures forall k | 0 <= k < |Buckets(start, end, step)| :: Buckets(start, end, step)[k] == start + k * step
    decreases end - start
  {
    if start < end {
      var r := Buckets(start, end, step);
      var rest := Buckets(start + step, end, step);
      BucketsAreSteps(start + step, end, step);
      assert r == [start] + rest;
      forall k | 0 < k < |r| ensures r[k] == start + k * step {
        assert r[k] == rest[k - 1] == start + step + (k - 1) * step;
        assert (k - 1) * step + step == k * step;
      }
    }
  }

  /** The buckets cover [start, end) with the last one reaching at or past `end`. */
  lemma {:induction false} BucketCount(start: int, end: int, step: int)
    requires step > 0 && start < end
    ensures (|Buckets(start, end, step)| - 1) * step < end - start <= |Buckets(start, end, step)| * step
    decreases end - start
  {
    var n := |Buckets(start, end, step)|;
    if start + step < end {
      var m := |Buckets(start + step, end, step)|;
      assert n == m + 1;
      BucketCount(start + step, end, step);
      OneMoreStep(m - 1, step);
      OneMoreStep(m, step);
    } else {
      assert n == 1;
    }
  }

  lemma OneMoreStep(m: int, step: int)
    ensures (m + 1) * step == m * step + step
  {
  }

  /** Buckets from a start on the hour, a whole number of hours apart, all start on the hour. */
  lemma {:induction false} BucketsOnTheHour(start: int, end: int, step: int)
    requires step > 0 && start % SecondsPerHour == 0 && step % SecondsPerHour == 0
    ensures forall k | 0 <= k < |Buckets(start, end, step)| :: Buckets(start, end, step)[k] % SecondsPerHour == 0
    decreases end - start
  {
    if start < end {
      BucketsOnTheHour(start + step, end, step);
      var r := Buckets(start, end, step);
      var rest := Buckets(start + step, end, step);
      assert r == [start] + rest;
      forall k | 0 < k < |r| ensures r[k] % SecondsPerHour == 0 {
        assert r[k] == rest[k - 1];
      }
    }
  }

  /** A step of `stepHours` hours is a whole number of hours. */
  lemma WholeHours(stepHours: int)
    requires stepHours >= 1
    ensures stepHours * SecondsPerHour > 0 && (stepHours * SecondsPerHour) % SecondsPerHour == 0
  {
  }

  /** The line written for the bucket starting at `b`. */
  function BucketEntry(source: seq<string>, b: int, step: int, read: imap<string, real>, dest: FloatText): string
    requires InRange(b)
  {
    Entry(TimeText(b), dest, AverageOf(source, b, b + step, read))
  }

  /** The lines each bucket writes, by bucket start. */
  ghost function BucketTable(source: seq<string>, step: int, read: imap<string, real>, dest: FloatText): imap<int, seq<string>> {
    imap b | InRange(b) :: SplitOn(BucketEntry(source, b, step, read, dest), '\n')
  }

  /** `lineOf` holds, for every bucket start, the lines that bucket writes. */
  ghost predicate Tabulates(lineOf: imap<int, seq<string>>, source: seq<string>, step: int, read: imap<string, real>, dest: FloatText) {
    forall b {:trigger BucketEntry(source, b, step, read, dest)} | InRange(b) ::
      b in lineOf && lineOf[b] == SplitOn(BucketEntry(source, b, step, read, dest), '\n')
  }

  lemma BucketTableTabulates(source: seq<string>, step: int, read: imap<string, real>, dest: FloatText)
    ensures Tabulates(BucketTable(source, step, read, dest), source, step, read, dest)
  {
  }

  /** The lines a table says the buckets from `b` up to `end` write, in order. */
  ghost function Rolled(lineOf: imap<int, seq<string>>, b: int, end: int, step: int): seq<string>
    requires step > 0
    decreases end - b
  {
    if b >= end then [] else (if b in lineOf then lineOf[b] else []) + Rolled(lineOf, b + step, end, step)
  }

  /** The lines the roll-up appends for the buckets from `b` up to `end`, in order. */
  ghost function RolledLines(source: seq<string>, b: int, end: int, step: int, read: imap<string, real>, dest: FloatText): seq<string>
    requires step > 0
  {
    Rolled(BucketTable(source, step, read, dest), b, end, step)
  }

  /** monitorTemperature: average the source over each bucket [b, b + step] and append
      the result, stamped b, to the destination. */
  method MonitorTemperature(source: FileStore, dest: FileStore, stepHours: int, now: int)
    requires source != dest && stepHours >= 1 && InRange(now)
    modifies dest
    ensures var step := stepHours * SecondsPerHour;
      var startTime := RollUpStart(FirstDateOf(source.lines, now),
        LastDateOf(old(dest.lines), dest.resolution, now) + step, stepHours, now);
      dest.lines == old(dest.lines)
        + RolledLines(source.lines, startTime, Align(now, stepHours), step, source.numbers.read, dest.numbers)
  {
    var step := stepHours * SecondsPerHour;
    var firstTime := source.GetFirstDate(now);
    var lastTime := dest.GetLastDate(now);
    lastTime := lastTime + step;
    var startTime := if firstTime > lastTime then firstTime else lastTime;
    if InRange(startTime) {
      var startTimeTM := Truncate(LocalTime(startTime), StepResolution(stepHours));
      AlignByCalendar(startTime, stepHours);
      startTime := MkTime(startTimeTM);
    } else {
      startTime := now;
    }
    var currentTimeTM := Truncate(LocalTime(now), StepResolution(stepHours));
    AlignByCalendar(now, stepHours);
    var endLoopTime := MkTime(currentTimeTM);
    ghost var lineOf := BucketTable(source.lines, step, source.numbers.read, dest.numbers);
    BucketTableTabulates(source.lines, step, source.numbers.read, dest.numbers);
    WriteBuckets(source, dest, startTime, endLoopTime, step, now, lineOf);
  }

  /** monitorTemperature's loop: one averaged line per bucket, from `startTime` while
      before `endLoopTime`. */
  method WriteBuckets(source: FileStore, dest: FileStore, startTime: int, endLoopTime: int, step: int, now: int,
                      ghost lineOf: imap<int, seq<string>>)
    requires source != dest && step > 0 && InRange(now)
    requires MinTime <= startTime && endLoopTime <= now
    requires Tabulates(lineOf, source.lines, step, source.numbers.read, dest.numbers)
    modifies dest
    ensures dest.lines == old(dest.lines) + Rolled(lineOf, startTime, endLoopTime, step)
  {
    ghost var target := dest.lines + Rolled(lineOf, startTime, endLoopTime, step);
    var currentTimePoint := startTime;
    while currentTimePoint < endLoopTime
      invariant MinTime <= currentTimePoint
      invariant dest.lines + Rolled(lineOf, currentTimePoint, endLoopTime, step) == target
      decreases endLoopTime - currentTimePoint
    {
      var nextTimePoint := currentTimePoint + step;
      ghost var before := dest.lines;
      WriteBucket(source, dest, currentTimePoint, step, now, lineOf);
      Regroup(before, lineOf[currentTimePoint], Rolled(lineOf, nextTimePoint, endLoopTime, step), target);
      currentTimePoint := nextTimePoint;
    }
    assert dest.lines + [] == dest.lines;
  }

  /** One pass of monitorTemperature's loop: average the source over [b, b + step]
      and append the average, stamped b, to the destination. */
  method WriteBucket(source: FileStore, dest: FileStore, b: int, step: int, now: int, ghost lineOf: imap<int, seq<string>>)
    requires source != dest && InRange(b) && InRange(now)
    requires Tabulates(lineOf, source.lines, step, source.numbers.read, dest.numbers)
    modifies dest
    ensures b in lineOf && dest.lines == old(dest.lines) + lineOf[b]
  {
    var avgTemp := source.GetAverageTemperature(b, b + step);
    BucketLines(lineOf, source.lines, b, step, source.numbers.read, dest.numbers, dest.resolution, now, avgTemp);
    dest.AddTemperature(avgTemp, TimeText(b), now);
  }

  /** Regrouping a concatenation, stated on plain sequences so that the solver does not
      look inside the lines. */
  lemma Regroup(x: seq<string>, y: seq<string>, z: seq<string>, target: seq<string>)
    requires x + (y + z) == target
    ensures (x + y) + z == target
  {
  }

  /** The lines AddTemperature appends for bucket `b`, given the bucket's average, are
      the ones the table lists. */
  lemma BucketLines(lineOf: imap<int, seq<string>>, source: seq<string>, b: int, step: int, read: imap<string, real>,
                    n: FloatText, res: TimeResolution, now: int, avg: real)
    requires InRange(b) && InRange(now) && Tabulates(lineOf, source, step, read, n)
    requires avg == AverageOf(source, b, b + step, read)
    ensures b in lineOf
    ensures lineOf[b] == SplitOn(Entry(StampToWrite(TimeText(b), res, now), n, avg), '\n')
  {
    assert lineOf[b] == SplitOn(BucketEntry(source, b, step, read, n), '\n');
    StampKept(b, res, now);
  }

  /** A stamp printed by put_time is written as it is. */
  lemma StampKept(t: int, res: TimeResolution, now: int)
    requires InRange(t) && InRange(now)
    ensures StampToWrite(TimeText(t), res, now) == TimeText(t)
  {
    TimeTextRoundTrip(t, []);
    assert TimeText(t) + [] == TimeText(t);
  }

  /** monitorHourTemperature's loop body: CURRENT into HOUR, one hour per bucket. */
  method HourRollUp(current: FileStore, hour: FileStore, now: int)
    requires current != hour && InRange(now)
    modifies hour
    ensures var startTime := RollUpStart(FirstDateOf(current.lines, now),
        LastDateOf(old(hour.lines), hour.resolution, now) + SecondsPerHour, 1, now);
      hour.lines == old(hour.lines)
        + RolledLines(current.lines, startTime, Align(now, 1), SecondsPerHour, current.numbers.read, hour.numbers)
  {
    MonitorTemperature(current, hour, 1, now);
  }

  /** monitorDayTemperature's loop body: HOUR into DAY, one day per bucket. */
  method DayRollUp(hour: FileStore, day: FileStore, now: int)
    requires hour != day && InRange(now)
    modifies day
    ensures var startTime := RollUpStart(FirstDateOf(hour.lines, now),
        LastDateOf(old(day.lines), day.resolution, now) + SecondsPerDay, 24, now);
      day.lines == old(day.lines)
        + RolledLines(hour.lines, startTime, Align(now, 24), SecondsPerDay, hour.numbers.read, day.numbers)
  {
    MonitorTemperature(hour, day, 24, now);
  }

  /** removeUnactualTemperature's loop body: the retention pass over the three stores. */
  method RemoveUnactual(current: FileStore, hour: FileStore, day: FileStore, now: int)
    requires current != hour && hour != day && current != day
    modifies current, hour, day
    ensures current.lines == Pruned(old(current.lines), now, Threshold(current.resolution))
    ensures hour.lines == Pruned(old(hour.lines), now, Threshold(hour.resolution))
    ensures day.lines == Pruned(old(day.lines), now, Threshold(day.resolution))
  {
    current.RemoveOutdated(now);
    hour.RemoveOutdated(now);
    day.RemoveOutdated(now);
  }

  // ---- Properties of the roll-up ----

  /** Every bucket start in `bs` has exactly one line in the table. */
  ghost predicate OneLineEach(lineOf: imap<int, seq<string>>, bs: seq<int>) {
    forall k | 0 <= k < |bs| :: bs[k] in lineOf && |lineOf[bs[k]]| == 1
  }

  /** When each bucket writes one line, the roll-up writes the buckets' lines in
      bucket order, one per bucket. */
  lemma {:induction false} RolledOneLineEach(lineOf: imap<int, seq<string>>, b: int, end: int, step: int)
    requires step > 0 && OneLineEach(lineOf, Buckets(b, end, step))
    ensures |Rolled(lineOf, b, end, step)| == |Buckets(b, end, step)|
    ensures forall k | 0 <= k < |Buckets(b, end, step)| ::
      Rolled(lineOf, b, end, step)[k] == lineOf[Buckets(b, end, step)[k]][0]
    decreases end - b
  {
    if b < end {
      var bs := Buckets(b, end, step);
      var rest := Buckets(b + step, end, step);
      assert bs == [b] + rest;
      assert OneLineEach(lineOf, rest) by {
        forall k | 0 <= k < |rest| ensures rest[k] in lineOf && |lineOf[rest[k]]| == 1 {
          assert rest[k] == bs[k + 1];
        }
      }
      RolledOneLineEach(lineOf, b + step, end, step);
      assert b in lineOf && |lineOf[b]| == 1 by { assert bs[0] == b; }
      var r := Rolled(lineOf, b, end, step);
      var r' := Rolled(lineOf, b + step, end, step);
      assert r == lineOf[b] + r';
      forall k | 0 <= k < |bs| ensures r[k] == lineOf[bs[k]][0] {
        if k > 0 {
          assert r[k] == r'[k - 1] && bs[k] == rest[k - 1];
        }
      }
    }
  }

  /** A tabulated bucket writes its entry as one line, stamped with the bucket start. */
  lemma OneStampedLine(lineOf: imap<int, seq<string>>, source: seq<string>, b: int, step: int,
                       read: imap<string, real>, dest: FloatText)
    requires Tabulates(lineOf, source, step, read, dest) && InRange(b) && b != -1
    requires '\n' !in Show(dest, AverageOf(source, b, b + step, read))
    ensures b in lineOf && |lineOf[b]| == 1 && LineTime(lineOf[b][0]) == Some(b)
  {
    BucketEntryOneLine(source, b, step, read, dest);
    LineTimeOfEntry(b, dest, AverageOf(source, b, b + step, read));
  }

  /** A bucket's entry is a single line when show prints no line break. */
  lemma BucketEntryOneLine(source: seq<string>, b: int, step: int, read: imap<string, real>, dest: FloatText)
    requires InRange(b) && '\n' !in Show(dest, AverageOf(source, b, b + step, read))
    ensures SplitOn(BucketEntry(source, b, step, read, dest), '\n') == [BucketEntry(source, b, step, read, dest)]
  {
    TimeTextHasNoBrackets(b);
    NoNewlineInEntry(TimeText(b), dest, AverageOf(source, b, b + step, read));
    SplitWithoutSeparator(BucketEntry(source, b, step, read, dest), '\n');
  }

  /** Windows are closed at both ends: a reading stamped exactly on the boundary between
      two buckets counts in both averages, as the reading of that one second, and it
      counts whenever its value text is readable. */
  lemma BoundaryReadingCountsTwice(line: string, b: int, step: int, read: imap<string, real>)
    requires LineTime(line) == Some(b + step) && step >= 0
    ensures Reading(line, b, b + step, read) == Reading(line, b + step, b + step, read)
    ensures Reading(line, b + step, b + step + step, read) == Reading(line, b + step, b + step, read)
    ensures Reading(line, b, b + step, read).Some?
        <==> ValueText(line).Some? && ReadWith(read, ValueText(line).value).Some?
  {
  }

  /** Running the roll-up again with the same clock writes nothing, whatever the source's
      first date: the destination's last line is now the last bucket, one step past which
      lies the end. */
  lemma {:induction false} RerunWritesNothing(lineOf: imap<int, seq<string>>, source: seq<string>, destLines: seq<string>,
                           res: TimeResolution, read: imap<string, real>, dest: FloatText,
                           first: int, stepHours: int, now: int)
    requires stepHours >= 1 && InRange(now)
    requires Tabulates(lineOf, source, stepHours * SecondsPerHour, read, dest)
    requires forall v: real :: '\n' !in Show(dest, v)
    ensures var step := stepHours * SecondsPerHour;
      var startTime := RollUpStart(first, LastDateOf(destLines, res, now) + step, stepHours, now);
      var after := destLines + Rolled(lineOf, startTime, Align(now, stepHours), step);
      var again := RollUpStart(first, LastDateOf(after, res, now) + step, stepHours, now);
      again >= Align(now, stepHours) && Rolled(lineOf, again, Align(now, stepHours), step) == []
  {
    var step := stepHours * SecondsPerHour;
    var endTime := Align(now, stepHours);
    var startTime := RollUpStart(first, LastDateOf(destLines, res, now) + step, stepHours, now);
    WholeHours(stepHours);
    if startTime < endTime {
      RollUpStartOnTheHour(first, LastDateOf(destLines, res, now) + step, stepHours, now);
      RerunAfterWriting(lineOf, source, destLines, res, read, dest, first, startTime, stepHours, now);
    } else {
      assert destLines + Rolled(lineOf, startTime, endTime, step) == destLines;
    }
  }

  /** A roll-up that starts before the end starts in range and on the hour. */
  lemma RollUpStartOnTheHour(first: int, last: int, stepHours: int, now: int)
    requires InRange(now)
    ensures var s := RollUpStart(first, last, stepHours, now);
      s < Align(now, stepHours) ==> InRange(s) && s % SecondsPerHour == 0
  {
  }

  /** Once buckets were written, the next start lies one step past the last of them,
      which is at or past the end. */
  lemma {:induction false} RerunAfterWriting(lineOf: imap<int, seq<string>>, source: seq<string>, destLines: seq<string>,
                          res: TimeResolution, read: imap<string, real>, dest: FloatText,
                          first: int, startTime: int, stepHours: int, now: int)
    requires stepHours >= 1 && InRange(now) && InRange(startTime) && startTime % SecondsPerHour == 0
    requires startTime < Align(now, stepHours)
    requires stepHours * SecondsPerHour > 0 && (stepHours * SecondsPerHour) % SecondsPerHour == 0
    requires Tabulates(lineOf, source, stepHours * SecondsPerHour, read, dest)
    requires forall v: real :: '\n' !in Show(dest, v)
    ensures var step := stepHours * SecondsPerHour;
      var after := destLines + Rolled(lineOf, startTime, Align(now, stepHours), step);
      RollUpStart(first, LastDateOf(after, res, now) + step, stepHours, now) >= Align(now, stepHours)
  {
    var step := stepHours * SecondsPerHour;
    var endTime := Align(now, stepHours);
    RolledEndsWithLastBucket(lineOf, source, destLines, res, read, dest, startTime, endTime, step, now);
    var after := destLines + Rolled(lineOf, startTime, endTime, step);
    PastTheEnd(first, LastDateOf(after, res, now), step, stepHours, now);
  }

  /** After the roll-up, the destination's last date is the start of the last bucket:
      not before the first, before the end, and within one step of it. */
  lemma {:induction false} RolledEndsWithLastBucket(lineOf: imap<int, seq<string>>, source: seq<string>, destLines: seq<string>,
                                 res: TimeResolution, read: imap<string, real>, dest: FloatText,
                                 startTime: int, endTime: int, step: int, now: int)
    requires step > 0 && MinTime <= startTime < endTime <= now && InRange(now)
    requires startTime % SecondsPerHour == 0 && step % SecondsPerHour == 0
    requires Tabulates(lineOf, source, step, read, dest)
    requires forall v: real :: '\n' !in Show(dest, v)
    ensures var last := LastDateOf(destLines + Rolled(lineOf, startTime, endTime, step), res, now);
      startTime <= last < endTime <= last + step
  {
    BucketsOnTheHour(startTime, endTime, step);
    LastBucketWritten(lineOf, source, destLines, res, read, dest, startTime, endTime, step, now);
  }

  /** The roll-up's last written line carries the start of the last bucket. */
  lemma {:induction false} LastBucketWritten(lineOf: imap<int, seq<string>>, source: seq<string>, destLines: seq<string>,
                          res: TimeResolution, read: imap<string, real>, dest: FloatText,
                          startTime: int, endTime: int, step: int, now: int)
    requires step > 0 && MinTime <= startTime < endTime <= now && InRange(now)
    requires forall k | 0 <= k < |Buckets(startTime, endTime, step)| :: Buckets(startTime, endTime, step)[k] % SecondsPerHour == 0
    requires Tabulates(lineOf, source, step, read, dest)
    requires forall v: real :: '\n' !in Show(dest, v)
    ensures var bs := Buckets(startTime, endTime, step);
      LastDateOf(destLines + Rolled(lineOf, startTime, endTime, step), res, now) == bs[|bs| - 1]
  {
    var bs := Buckets(startTime, endTime, step);
    var last := bs[|bs| - 1];
    forall k | 0 <= k < |bs| ensures bs[k] in lineOf && |lineOf[bs[k]]| == 1 {
      OneStampedLine(lineOf, source, bs[k], step, read, dest);
    }
    RolledOneLineEach(lineOf, startTime, endTime, step);
    OneStampedLine(lineOf, source, last, step, read, dest);
    var written := Rolled(lineOf, startTime, endTime, step);
    var n := |written|;
    SplitLast(destLines, written);
    LastDateAfterTimedAppend(destLines + written[..n - 1], written[n - 1], res, now);
  }

  /** The roll-up writes one line per bucket, and the k-th line it writes is stamped
      k steps after the first bucket. */
  lemma RolledStampsAreSteps(lineOf: imap<int, seq<string>>, source: seq<string>,
                             read: imap<string, real>, dest: FloatText, start: int, end: int, step: int)
    requires step > 0 && MinTime <= start && end <= MaxTime + 1
    requires start % SecondsPerHour == 0 && step % SecondsPerHour == 0
    requires Tabulates(lineOf, source, step, read, dest)
    requires forall v: real :: '\n' !in Show(dest, v)
    ensures |Rolled(lineOf, start, end, step)| == |Buckets(start, end, step)|
    ensures forall k | 0 <= k < |Rolled(lineOf, start, end, step)| ::
      LineTime(Rolled(lineOf, start, end, step)[k]) == Some(start + k * step)
  {
    var bs := Buckets(start, end, step);
    BucketsOnTheHour(start, end, step);
    BucketsAreSteps(start, end, step);
    forall k | 0 <= k < |bs| ensures bs[k] in lineOf && |lineOf[bs[k]]| == 1 && LineTime(lineOf[bs[k]][0]) == Some(bs[k]) {
      OneStampedLine(lineOf, source, bs[k], step, read, dest);
    }
    RolledOneLineEach(lineOf, start, end, step);
  }

  /** A non-empty tail splits off its last element. */
  lemma SplitLast<T>(a: seq<T>, s: seq<T>)
    requires s != []
    ensures a + s == (a + s[..|s| - 1]) + [s[|s| - 1]]
  {
    assert s == s[..|s| - 1] + [s[|s| - 1]];
  }

  /** Starting again one step past the last bucket, whose step reached the end, leaves
      no bucket. */
  lemma PastTheEnd(first: int, last: int, step: int, stepHours: int, now: int)
    requires InRange(now) && step > 0 && MinTime <= last && Align(now, stepHours) <= last + step
    ensures RollUpStart(first, last + step, stepHours, now) >= Align(now, stepHours)
  {
    var next := last + step;
    var later := if first > next then first else next;
    if InRange(later) {
      AlignMonotone(Align(now, stepHours), later, stepHours);
      AlignIdempotent(now, stepHours);
    }
  }

  /** Rounding an already rounded time changes nothing. */
  lemma AlignIdempotent(t: int, stepHours: int)
    requires InRange(t)
    ensures Align(Align(t, stepHours), stepHours) == Align(t, stepHours)
  {
  }

  /** Rounding down to the step's unit keeps order. */
  lemma AlignMonotone(x: int, y: int, stepHours: int)
    requires InRange(x) && InRange(y) && x <= y
    ensures Align(x, stepHours) <= Align(y, stepHours)
  {
    if stepHours == 24 {
      assert x - x % 86400 == 86400 * (x / 86400) && y - y % 86400 == 86400 * (y / 86400);
      assert x / 86400 <= y / 86400;
    } else {
      assert x - x % 3600 == 3600 * (x / 3600) && y - y % 3600 == 3600 * (y / 3600);
      assert x / 3600 <= y / 3600;
    }
  }
}
