/** The line-oriented store of one resolution (Task4's DataAggregator): a text file
    whose lines read "YYYY-MM-DD HH:MM:SS [value]". The file is the class's `lines`;
    a missing file reads exactly like an empty one in every operation, so it is `[]`.
    Every operation takes the clock reading `now` as a parameter. */
module FlatFileAggregator {
  import opened Strings
  import opened Timestamps

  /** The two library calls that turn a float into text and back: `ostream << float`
      (`show`) and std::stof (`read`, None where stof throws). */
  datatype FloatText = FloatText(show: imap<real, string>, read: imap<string, real>)
  function Show(n: FloatText, v: real): string { if v in n.show then n.show[v] else [] }
  function ReadWith(read: imap<string, real>, s: string): Option<real> { if s in read then Some(read[s]) else None }

  /** The text `show` prints for `v` is read back as `v` and holds no bracket and no
      line break. */
  predicate RoundTrips(n: FloatText, v: real) {
    ReadWith(n.read, Show(n, v)) == Some(v) && '[' !in Show(n, v) && ']' !in Show(n, v) && '\n' !in Show(n, v)
  }

  /** Length of the timestamp prefix of a line. */
  const StampLength: nat := 19

  // ---- Reading one line ----

  /** The time of a line: its first 19 characters parsed and passed to mktime, with
      mktime's error value -1 read as a failure. None for short or unparseable lines. */
  function LineTime(line: string): Option<int> {
    if |line| < StampLength then None
    else
      var p := GetTime(line[..StampLength]);
      if !p.ok then None
      else if MkTime(p.tm) == -1 then None
      else Some(MkTime(p.tm))
  }

  /** The text between the first '[' and the first ']' (to the end of the line when
      that ']' comes first); None when either bracket is missing. */
  function ValueText(line: string): (r: Option<string>)
    ensures r.Some? <==> '[' in line && ']' in line
  {
    match Find(line, '[')
      case None => None
      case Some(i) =>
        match Find(line, ']')
          case None => None
          case Some(j) => Some(if j >= i + 1 then line[i + 1..j] else line[i + 1..])
  }

  /** ValueText as the C++ computes it: `line.find('[') + 1` wraps npos round to 0, so
      the guard `startPos != npos` never fails and a line without '[' is read from its
      first character. */
  function ValueTextAsWritten(line: string): Option<string> {
    var startPos := match Find(line, '[') case None => 0 case Some(i) => i + 1;
    match Find(line, ']')
      case None => None
      case Some(j) => Some(if j >= startPos then line[startPos..j] else line[startPos..])
  }

  /** With a '[' in the line the two agree; they differ only on lines without one. */
  lemma ValueTextAgreesWithBracket(line: string)
    requires '[' in line
    ensures ValueText(line) == ValueTextAsWritten(line)
  {
  }

  /** Reading, with the value text taken as the C++ takes it. */
  function ReadingAsWritten(line: string, lo: int, hi: int, read: imap<string, real>): Option<real> {
    match LineTime(line)
      case None => None
      case Some(t) =>
        if !(lo <= t && t <= hi) then None
        else match ValueTextAsWritten(line)
          case None => None
          case Some(text) => ReadWith(read, text)
  }

  /** A line "<stamp> 21.5]" that lost its '[' has no value, yet the code hands
      "<stamp> 21.5" to stof, which reads the stamp's year: the line then counts in the
      average as a reading of (say) 2024 degrees. */
  lemma MissingOpenBracketCountsAsWritten(t: int, n: FloatText, x: real)
    requires InRange(t) && t != -1
    requires ReadWith(n.read, TimeText(t) + " 21.5") == Some(x)
    ensures Reading(TimeText(t) + " 21.5]", t, t, n.read) == None
    ensures ReadingAsWritten(TimeText(t) + " 21.5]", t, t, n.read) == Some(x)
  {
    var head := TimeText(t) + " 21.5";
    var line := head + "]";
    assert line == TimeText(t) + " 21.5]";
    LineTimeOfStamped(t, " 21.5]");
    TimeTextHasNoBrackets(t);
    NoCharInConcat(TimeText(t), " 21.5]", '[');
    NoCharInConcat(TimeText(t), " 21.5", ']');
    assert Find(line, '[') == None;
    FindAfter(head, "]", ']');
    assert line[0..|head|] == head;
  }

  /** The character is in neither part, so it is not in the whole. */
  lemma NoCharInConcat(a: string, b: string, c: char)
    requires c !in a && c !in b
    ensures c !in a + b
  {
    forall k | 0 <= k < |a + b| ensures (a + b)[k] != c {
      if k < |a| { assert (a + b)[k] == a[k]; } else { assert (a + b)[k] == b[k - |a|]; }
    }
  }

  /** Find skips a head that does not hold the character. */
  lemma {:induction false} FindAfter(head: string, tail: string, c: char)
    requires c !in head && tail != [] && tail[0] == c
    ensures Find(head + tail, c) == Some(|head|)
  {
    var s := head + tail;
    assert s[..|head|] == head;
    assert s[|head|] == c;
  }

  /** The reading a line contributes to an average over [lo, hi], if any. */
  function Reading(line: string, lo: int, hi: int, read: imap<string, real>): (r: Option<real>)
    ensures r.Some? ==> '[' in line && ']' in line
    ensures r.Some? ==> LineTime(line).Some? && lo <= LineTime(line).value <= hi
  {
    match LineTime(line)
      case None => None
      case Some(t) =>
        if !(lo <= t && t <= hi) then None
        else match ValueText(line)
          case None => None
          case Some(text) => ReadWith(read, text)
  }

  /** The readings of the lines in order, skipping lines that contribute none. */
  function Readings(lines: seq<string>, lo: int, hi: int, read: imap<string, real>): seq<real> {
    if lines == [] then []
    else
      var prefix := Readings(lines[..|lines| - 1], lo, hi, read);
      match Reading(lines[|lines| - 1], lo, hi, read)
        case None => prefix
        case Some(v) => prefix + [v]
  }

  /** Readings of one more line: that line's reading, if any, comes last. */
  lemma {:induction false} ReadingsStep(lines: seq<string>, i: nat, lo: int, hi: int, read: imap<string, real>)
    requires i < |lines|
    ensures Readings(lines[..i + 1], lo, hi, read) ==
      Readings(lines[..i], lo, hi, read) + match Reading(lines[i], lo, hi, read) case None => [] case Some(v) => [v]
  {
    assert lines[..i + 1][..i] == lines[..i];
  }

  /** One pass of getAverageTemperature's loop body: the line's time, checked against
      the window, then the text between its brackets converted to a number. */
  method ReadLine(line: string, startTime: int, endTime: int, read: imap<string, real>) returns (r: Option<real>)
    ensures r == Reading(line, startTime, endTime, read)
  {
    r := None;
    if |line| >= StampLength {
      var parsed := GetTime(line[..StampLength]);
      if parsed.ok {
        var epochTime := MkTime(parsed.tm);
        if epochTime != -1 && startTime <= epochTime && epochTime <= endTime {
          var text := ValueText(line);
          if text.Some? {
            r := ReadWith(read, text.value);
          }
        }
      }
    }
  }

  /** Left-to-right sum (std::accumulate from 0). */
  function Sum(xs: seq<real>): real {
    SumTo(xs, |xs|)
  }

  /** The sum of the first `n` values, added left to right. */
  function SumTo(xs: seq<real>, n: nat): real
    requires n <= |xs|
  {
    if n == 0 then 0.0 else SumTo(xs, n - 1) + xs[n - 1]
  }

  /** The mean of the readings, 0 when there are none. */
  function Mean(xs: seq<real>): real {
    if xs == [] then 0.0 else Sum(xs) / (|xs| as real)
  }

  /** getAverageTemperature: the mean of the values on lines timed in [lo, hi]. */
  function AverageOf(lines: seq<string>, lo: int, hi: int, read: imap<string, real>): real {
    Mean(Readings(lines, lo, hi, read))
  }

  /** The readings as the C++ takes them (see ReadingAsWritten). */
  function ReadingsAsWritten(lines: seq<string>, lo: int, hi: int, read: imap<string, real>): seq<real> {
    if lines == [] then []
    else
      var prefix := ReadingsAsWritten(lines[..|lines| - 1], lo, hi, read);
      match ReadingAsWritten(lines[|lines| - 1], lo, hi, read)
        case None => prefix
        case Some(v) => prefix + [v]
  }

  /** getAverageTemperature as the C++ computes it. */
  function AverageOfAsWritten(lines: seq<string>, lo: int, hi: int, read: imap<string, real>): real {
    Mean(ReadingsAsWritten(lines, lo, hi, read))
  }

  /** When every timed line holds a '[', the code's average and the model's agree: the
      two readings differ only on timed lines without one. */
  lemma {:induction false} AverageAgreesWhenBracketed(lines: seq<string>, lo: int, hi: int, read: imap<string, real>)
    requires forall k | 0 <= k < |lines| :: LineTime(lines[k]).Some? ==> '[' in lines[k]
    ensures ReadingsAsWritten(lines, lo, hi, read) == Readings(lines, lo, hi, read)
    ensures AverageOfAsWritten(lines, lo, hi, read) == AverageOf(lines, lo, hi, read)
    decreases |lines|
  {
    if lines != [] {
      var last := lines[|lines| - 1];
      AverageAgreesWhenBracketed(lines[..|lines| - 1], lo, hi, read);
      if '[' in last {
        ValueTextAgreesWithBracket(last);
      }
      assert ReadingAsWritten(last, lo, hi, read) == Reading(last, lo, hi, read);
    }
  }

  /** getFirstDate: the time on the first line, or `now` when there is no first line
      or it has no time. */
  function FirstDateOf(lines: seq<string>, now: int): int {
    if lines == [] then now
    else match LineTime(lines[0])
      case None => now
      case Some(t) => t
  }

  /** The time on the last line that has one. */
  function LastTimed(lines: seq<string>): Option<int> {
    if lines == [] then None
    else match LineTime(lines[|lines| - 1])
      case Some(t) => Some(t)
      case None => LastTimed(lines[..|lines| - 1])
  }

  /** getDefaultTime: where the roll-up into an empty store of this resolution starts. */
  function DefaultTime(res: TimeResolution, now: int): int {
    match res
      case Hour => now - 24 * SecondsPerHour
      case Day => now - 24 * 30 * SecondsPerHour
      case Current => now
  }

  /** getLastDate: the time on the last line that has one, or the default time. */
  function LastDateOf(lines: seq<string>, res: TimeResolution, now: int): int {
    match LastTimed(lines)
      case None => DefaultTime(res, now)
      case Some(t) => t
  }

  /** removeOutdated's age limit, in seconds. */
  function Threshold(res: TimeResolution): int {
    match res
      case Day => 24 * 365 * SecondsPerHour
      case Hour => 24 * 30 * SecondsPerHour
      case Current => 24 * SecondsPerHour
  }

  /** removeOutdated's first check: a first line of at least 19 characters no older than
      the threshold leaves the file alone. An unparseable stamp is not rejected here:
      mktime is applied to whatever get_time left in the tm. */
  predicate FirstLineFresh(lines: seq<string>, now: int, threshold: int) {
    && lines != [] && |lines[0]| >= StampLength
    && now - MkTime(GetTime(lines[0][..StampLength]).tm) <= threshold
  }

  /** removeOutdated's rewrite: while `stale`, drop lines until one with a time no older
      than the threshold; from there keep every line of at least 19 characters. */
  function Kept(lines: seq<string>, now: int, threshold: int, stale: bool): seq<string>
    decreases |lines|
  {
    if lines == [] then []
    else
      var line := lines[0];
      if |line| < StampLength then Kept(lines[1..], now, threshold, stale)
      else if !stale then [line] + Kept(lines[1..], now, threshold, false)
      else match LineTime(line)
        case None => Kept(lines[1..], now, threshold, true)
        case Some(t) =>
          if now - t <= threshold then [line] + Kept(lines[1..], now, threshold, false)
          else Kept(lines[1..], now, threshold, true)
  }

  /** The file after removeOutdated. */
  function Pruned(lines: seq<string>, now: int, threshold: int): seq<string> {
    if FirstLineFresh(lines, now, threshold) then lines else Kept(lines, now, threshold, true)
  }

  /** getCurrentTimestamp: the clock printed in the stamp format, rounded down to the
      hour (HOUR) or to the day (DAY). */
  function CurrentTimestamp(res: TimeResolution, now: int): (r: string)
    requires InRange(now)
    ensures |r| == StampLength && GetTime(r).ok
    ensures GetTime(r).tm == Truncate(LocalTime(now), res)
    ensures MkTime(GetTime(r).tm) == now - now % UnitOf(res)
  {
    TruncateAligns(now, res);
    var tm := Truncate(LocalTime(now), res);
    GetTimeFormat(tm, []);
    assert Format(tm) + [] == Format(tm);
    Format(tm)
  }

  /** The stamp addTemperature writes: the given one when get_time accepts it, else the
      rounded clock. */
  function StampToWrite(timestamp: string, res: TimeResolution, now: int): (r: string)
    requires !GetTime(timestamp).ok ==> InRange(now)
    ensures GetTime(r).ok
    ensures GetTime(timestamp).ok ==> r == timestamp
    ensures !GetTime(timestamp).ok ==> r == CurrentTimestamp(res, now) && r != timestamp
  {
    if timestamp == [] then CurrentTimestamp(res, now)
    else if !GetTime(timestamp).ok then CurrentTimestamp(res, now)
    else timestamp
  }

  /** The text addTemperature appends, before the line break. */
  function Entry(stamp: string, n: FloatText, temperature: real): string {
    stamp + " [" + Show(n, temperature) + "]"
  }

  /** One resolution's file, with the float text conversions it is written and read with. */
  class FileStore {
    const resolution: TimeResolution
    const numbers: FloatText
    var lines: seq<string>

    constructor (res: TimeResolution, numbers: FloatText, existing: seq<string>)
      ensures resolution == res && this.numbers == numbers && lines == existing
    {
      resolution := res;
      this.numbers := numbers;
      lines := existing;
    }

    /** Appends `<stamp> [<temperature>]` and a line break: the existing lines stay as
        they are, and a stamp already present is simply written again. */
    method AddTemperature(temperature: real, timestamp: string, now: int)
      requires !GetTime(timestamp).ok ==> InRange(now)
      modifies this
      ensures lines == old(lines) + SplitOn(Entry(StampToWrite(timestamp, resolution, now), numbers, temperature), '\n')
    {
      var stamp := timestamp;
      if timestamp == [] {
        stamp := CurrentTimestamp(resolution, now);
      } else if !GetTime(timestamp).ok {
        stamp := CurrentTimestamp(resolution, now);
      }
      lines := lines + SplitOn(Entry(stamp, numbers, temperature), '\n');
    }

    /** The mean of the values on the lines timed in [startTime, endTime]. */
    method GetAverageTemperature(startTime: int, endTime: int) returns (r: real)
      ensures r == AverageOf(lines, startTime, endTime, numbers.read)
    {
      var temperatures: seq<real> := [];
      var i := 0;
      while i < |lines|
        invariant 0 <= i <= |lines|
        invariant temperatures == Readings(lines[..i], startTime, endTime, numbers.read)
      {
        ReadingsStep(lines, i, startTime, endTime, numbers.read);
        var value := ReadLine(lines[i], startTime, endTime, numbers.read);
        if value.Some? {
          temperatures := temperatures + [value.value];
        }
        i := i + 1;
      }
      assert lines[..i] == lines;
      if temperatures == [] {
        return 0.0;
      }
      var sum := Sum(temperatures);
      r := sum / (|temperatures| as real);
    }

    /** The time on the first line, or `now`. */
    method GetFirstDate(now: int) returns (r: int)
      ensures r == FirstDateOf(lines, now)
    {
      if lines != [] {
        var line := lines[0];
        if |line| >= StampLength {
          var parsed := GetTime(line[..StampLength]);
          if parsed.ok {
            var epochTime := MkTime(parsed.tm);
            if epochTime != -1 {
              return epochTime;
            }
          }
        }
      }
      return now;
    }

    /** The time on the last line that has one, or the default time. */
    method GetLastDate(now: int) returns (r: int)
      ensures r == LastDateOf(lines, resolution, now)
    {
      var lastDate := now;
      var dateFound := false;
      var i := 0;
      while i < |lines|
        invariant 0 <= i <= |lines|
        invariant dateFound == LastTimed(lines[..i]).Some?
        invariant dateFound ==> lastDate == LastTimed(lines[..i]).value
      {
        var line := lines[i];
        assert lines[..i + 1][..i] == lines[..i];
        if |line| >= StampLength {
          var parsed := GetTime(line[..StampLength]);
          if parsed.ok {
            var epochTime := MkTime(parsed.tm);
            if epochTime != -1 {
              lastDate := epochTime;
              dateFound := true;
            }
          }
        }
        i := i + 1;
      }
      assert lines[..i] == lines;
      if !dateFound {
        return DefaultTime(resolution, now);
      }
      return lastDate;
    }

    /** Drops the outdated head of the file (see Pruned). */
    method RemoveOutdated(now: int)
      modifies this
      ensures lines == Pruned(old(lines), now, Threshold(resolution))
    {
      var threshold := Threshold(resolution);
      if lines != [] && |lines[0]| >= StampLength {
        var fileTime := MkTime(GetTime(lines[0][..StampLength]).tm);
        if now - fileTime <= threshold {
          return;
        }
      }
      lines := KeptLines(lines, now, threshold);
    }
  }

  // ---- Properties ----

  /** A line written at time `t` (other than mktime's error value -1) with a value that
      survives printing and reading contributes exactly that value to every window
      holding `t`, and nothing to a window without it. */
  lemma WrittenLineReading(t: int, v: real, n: FloatText, lo: int, hi: int)
    requires InRange(t) && t != -1 && RoundTrips(n, v)
    ensures LineTime(Entry(TimeText(t), n, v)) == Some(t)
    ensures Reading(Entry(TimeText(t), n, v), lo, hi, n.read) == if lo <= t <= hi then Some(v) else None
  {
    LineTimeOfEntry(t, n, v);
    TimeTextHasNoBrackets(t);
    EntryValueText(TimeText(t), n, v);
  }

  /** removeOutdated's rewrite loop over the lines read from the file. */
  method KeptLines(file: seq<string>, now: int, threshold: int) returns (out: seq<string>)
    ensures out == Kept(file, now, threshold, true)
  {
    out := [];
    var stillUnActual := true;
    var i := 0;
    while i < |file|
      invariant 0 <= i <= |file|
      invariant out + Kept(file[i..], now, threshold, stillUnActual) == Kept(file, now, threshold, true)
    {
      assert file[i..] == [file[i]] + file[i + 1..];
      var keep, stale := KeepLine(file[i], now, threshold, stillUnActual, file[i + 1..]);
      out, stillUnActual := out + keep, stale;
      i := i + 1;
    }
    assert file[i..] == [];
  }

  /** One pass of removeOutdated's loop body: the line it keeps, if any, and whether
      it is still dropping outdated lines afterwards. */
  method KeepLine(line: string, now: int, threshold: int, stale: bool, ghost rest: seq<string>)
    returns (keep: seq<string>, next: bool)
    ensures keep + Kept(rest, now, threshold, next) == Kept([line] + rest, now, threshold, stale)
  {
    assert ([line] + rest)[1..] == rest;
    keep, next := [], stale;
    if |line| >= StampLength {
      if stale {
        var parsed := GetTime(line[..StampLength]);
        if parsed.ok {
          var epochTime := MkTime(parsed.tm);
          if epochTime != -1 && now - epochTime <= threshold {
            keep, next := [line], false;
          }
        }
      } else {
        keep := [line];
      }
    }
  }

  /** Behind a stamp free of brackets, the value text of an entry is what `show` printed. */
  lemma EntryValueText(stamp: string, n: FloatText, v: real)
    requires '[' !in stamp && ']' !in stamp && RoundTrips(n, v)
    ensures ValueText(Entry(stamp, n, v)) == Some(Show(n, v))
  {
    var line := Entry(stamp, n, v);
    var open := |stamp| + 1;
    var close := |line| - 1;
    assert line[..open] == stamp + " " && line[open] == '[';
    FindIs(line, '[', open);
    assert line[..close] == stamp + " [" + Show(n, v) && line[close] == ']';
    FindIs(line, ']', close);
    assert line[open + 1..close] == Show(n, v);
  }

  /** Stamps are digits and separators only. */
  lemma TimeTextHasNoBrackets(t: int)
    requires InRange(t)
    ensures '[' !in TimeText(t) && ']' !in TimeText(t) && '\n' !in TimeText(t)
  {
    LocalTimeRoundTrip(t);
    var tm := LocalTime(t);
    assert DaysInMonth(tm.year, tm.month) <= 31;
    FormatAvoids(tm, '[');
    FormatAvoids(tm, ']');
    FormatAvoids(tm, '\n');
  }

  /** Readings distribute over concatenated files. */
  lemma {:induction false} ReadingsAppend(a: seq<string>, b: seq<string>, lo: int, hi: int, read: imap<string, real>)
    ensures Readings(a + b, lo, hi, read) == Readings(a, lo, hi, read) + Readings(b, lo, hi, read)
    decreases |b|
  {
    if b == [] {
      assert a + b == a;
    } else {
      var b' := b[..|b| - 1];
      assert (a + b)[..|a + b| - 1] == a + b';
      assert (a + b)[|a + b| - 1] == b[|b| - 1];
      ReadingsAppend(a, b', lo, hi, read);
    }
  }

  /** Appending a line written at `t` in [lo, hi] to a file with no readings in that
      window makes the window's average exactly the value written. */
  lemma {:induction false} AverageOfWrittenLine(lines: seq<string>, t: int, v: real, n: FloatText, lo: int, hi: int)
    requires InRange(t) && t != -1 && RoundTrips(n, v) && lo <= t <= hi
    requires Readings(lines, lo, hi, n.read) == []
    ensures AverageOf(lines + [Entry(TimeText(t), n, v)], lo, hi, n.read) == v
  {
    var line := Entry(TimeText(t), n, v);
    WrittenLineReading(t, v, n, lo, hi);
    ReadingsAppend(lines, [line], lo, hi, n.read);
    assert [line][..0] == [];
    assert Readings([line], lo, hi, n.read) == [v];
    assert Readings(lines + [line], lo, hi, n.read) == [v];
    MeanOfOne(v);
  }

  lemma MeanOfOne(v: real)
    ensures Mean([v]) == v
  {
    assert SumTo([v], 1) == SumTo([v], 0) + v;
  }

  /** No line is timed in an empty window, so its average is 0. */
  lemma {:induction false} EmptyWindowAveragesZero(lines: seq<string>, lo: int, hi: int, read: imap<string, real>)
    requires hi < lo
    ensures Readings(lines, lo, hi, read) == [] && AverageOf(lines, lo, hi, read) == 0.0
  {
    if lines != [] {
      EmptyWindowAveragesZero(lines[..|lines| - 1], lo, hi, read);
    }
  }

  /** Short lines and lines without a time never contribute. */
  lemma {:induction false} UntimedLinesContributeNothing(lines: seq<string>, lo: int, hi: int, read: imap<string, real>)
    requires forall k | 0 <= k < |lines| :: LineTime(lines[k]).None?
    ensures Readings(lines, lo, hi, read) == []
  {
    if lines != [] {
      UntimedLinesContributeNothing(lines[..|lines| - 1], lo, hi, read);
    }
  }

  /** Every reading counted comes from a line timed inside the window. */
  lemma {:induction false} ReadingsComeFromWindow(lines: seq<string>, lo: int, hi: int, read: imap<string, real>, k: nat)
    requires k < |Readings(lines, lo, hi, read)|
    ensures exists i :: 0 <= i < |lines| && Reading(lines[i], lo, hi, read) == Some(Readings(lines, lo, hi, read)[k])
    ensures exists i :: 0 <= i < |lines| && LineTime(lines[i]).Some? && lo <= LineTime(lines[i]).value <= hi
  {
    var init := lines[..|lines| - 1];
    var last := lines[|lines| - 1];
    if k < |Readings(init, lo, hi, read)| {
      ReadingsComeFromWindow(init, lo, hi, read, k);
      var i :| 0 <= i < |init| && Reading(init[i], lo, hi, read) == Some(Readings(init, lo, hi, read)[k]);
      assert lines[i] == init[i];
    } else {
      assert Reading(last, lo, hi, read) == Some(Readings(lines, lo, hi, read)[k]);
    }
  }

  /** The average lies between the smallest and the largest reading. */
  lemma MeanWithinBounds(xs: seq<real>, low: real, high: real)
    requires xs != []
    requires forall k | 0 <= k < |xs| :: low <= xs[k] <= high
    ensures low <= Mean(xs) <= high
  {
    SumBounds(xs, low, high);
    var n := |xs| as real;
    assert low * n <= Sum(xs) <= high * n;
  }

  lemma SumBounds(xs: seq<real>, low: real, high: real)
    requires forall k | 0 <= k < |xs| :: low <= xs[k] <= high
    ensures low * (|xs| as real) <= Sum(xs) <= high * (|xs| as real)
  {
    SumToBounds(xs, |xs|, low, high);
  }

  lemma {:induction false} SumToBounds(xs: seq<real>, n: nat, low: real, high: real)
    requires n <= |xs|
    requires forall k | 0 <= k < |xs| :: low <= xs[k] <= high
    ensures low * (n as real) <= SumTo(xs, n) <= high * (n as real)
  {
    if n > 0 {
      SumToBounds(xs, n - 1, low, high);
    }
  }

  /** getFirstDate reads the first line only: appending never changes it once the file
      has a first line, whatever the appended times are. */
  lemma FirstDateStableUnderAppend(lines: seq<string>, more: seq<string>, now: int)
    requires lines != []
    ensures FirstDateOf(lines + more, now) == FirstDateOf(lines, now)
  {
    assert (lines + more)[0] == lines[0];
  }

  /** getFirstDate is not the earliest time in the file: a file whose first line is
      later than its second reports the first line's time. */
  lemma FirstDateIsNotTheMinimum(early: int, late: int, n: FloatText, v: real, now: int)
    requires InRange(early) && InRange(late) && early < late && early != -1 && late != -1
    ensures var lines := [Entry(TimeText(late), n, v), Entry(TimeText(early), n, v)];
      FirstDateOf(lines, now) == late && LineTime(lines[1]) == Some(early)
  {
    LineTimeOfEntry(late, n, v);
    LineTimeOfEntry(early, n, v);
  }

  /** The stamp of an entry written at `t` reads back as `t`. */
  lemma LineTimeOfEntry(t: int, n: FloatText, v: real)
    requires InRange(t) && t != -1
    ensures LineTime(Entry(TimeText(t), n, v)) == Some(t)
  {
    assert Entry(TimeText(t), n, v) == TimeText(t) + (" [" + Show(n, v) + "]");
    LineTimeOfStamped(t, " [" + Show(n, v) + "]");
  }

  /** A line starting with the stamp of `t` is timed `t`, whatever follows. */
  lemma LineTimeOfStamped(t: int, rest: string)
    requires InRange(t) && t != -1
    ensures LineTime(TimeText(t) + rest) == Some(t)
  {
    var line := TimeText(t) + rest;
    assert line[..StampLength] == TimeText(t);
    TimeTextRoundTrip(t, []);
    assert TimeText(t) + [] == TimeText(t);
  }

  /** getLastDate finds the last timed line: its time is returned, and no line after it
      has a time. It is not the latest time in the file. */
  lemma {:induction false} LastTimedIsLast(lines: seq<string>)
    ensures LastTimed(lines).None? <==> forall k | 0 <= k < |lines| :: LineTime(lines[k]).None?
    ensures LastTimed(lines).Some? ==>
      exists i :: 0 <= i < |lines| && LineTime(lines[i]) == LastTimed(lines) && NoTimeAfter(lines, i)
  {
    if lines != [] {
      var init := lines[..|lines| - 1];
      var last := lines[|lines| - 1];
      LastTimedIsLast(init);
      assert forall k | 0 <= k < |init| :: lines[k] == init[k];
      if LineTime(last).Some? {
        assert LineTime(lines[|lines| - 1]) == LastTimed(lines) && NoTimeAfter(lines, |lines| - 1);
      } else if LastTimed(init).Some? {
        var i :| 0 <= i < |init| && LineTime(init[i]) == LastTimed(init) && NoTimeAfter(init, i);
        assert LineTime(lines[i]) == LastTimed(lines) && NoTimeAfter(lines, i);
      }
    }
  }

  /** No line after index `i` has a time. */
  predicate NoTimeAfter(lines: seq<string>, i: int) {
    forall k | 0 <= k < |lines| && k > i :: LineTime(lines[k]).None?
  }

  /** After appending a timed line, getLastDate returns that line's time. */
  lemma LastDateAfterTimedAppend(lines: seq<string>, line: string, res: TimeResolution, now: int)
    requires LineTime(line).Some?
    ensures LastDateOf(lines + [line], res, now) == LineTime(line).value
  {
    assert (lines + [line])[|lines + [line]| - 1] == line;
  }

  /** One order-preserving selection of elements of `b` makes `a`. */
  predicate IsSubsequence(a: seq<string>, b: seq<string>)
    decreases |b|
  {
    a == [] || (b != [] && ((a[0] == b[0] && IsSubsequence(a[1..], b[1..])) || IsSubsequence(a, b[1..])))
  }

  /** removeOutdated only deletes: what remains is the old lines in their old order, and
      none of them is shorter than 19 characters unless the file was left as it was. */
  lemma {:induction false} KeptIsSubsequence(lines: seq<string>, now: int, threshold: int, stale: bool)
    ensures IsSubsequence(Kept(lines, now, threshold, stale), lines)
    ensures forall k | 0 <= k < |Kept(lines, now, threshold, stale)| :: |Kept(lines, now, threshold, stale)[k]| >= StampLength
    decreases |lines|
  {
    if lines != [] {
      KeptIsSubsequence(lines[1..], now, threshold, false);
      KeptIsSubsequence(lines[1..], now, threshold, true);
      var r := Kept(lines, now, threshold, stale);
      if r != [] && r[0] == lines[0] && r[1..] == Kept(lines[1..], now, threshold, false) {
        assert IsSubsequence(r, lines);
      }
    }
  }

  lemma {:induction false} PrunedIsSubsequence(lines: seq<string>, now: int, threshold: int)
    ensures IsSubsequence(Pruned(lines, now, threshold), lines)
    ensures !FirstLineFresh(lines, now, threshold) ==>
      forall k | 0 <= k < |Pruned(lines, now, threshold)| :: |Pruned(lines, now, threshold)[k]| >= StampLength
  {
    if FirstLineFresh(lines, now, threshold) {
      SubsequenceReflexive(lines);
    } else {
      KeptIsSubsequence(lines, now, threshold, true);
    }
  }

  lemma {:induction false} SubsequenceReflexive(a: seq<string>)
    ensures IsSubsequence(a, a)
    decreases |a|
  {
    if a != [] { SubsequenceReflexive(a[1..]); }
  }

  /** The lines of at least 19 characters, in order. */
  function LongLines(lines: seq<string>): seq<string>
    decreases |lines|
  {
    if lines == [] then []
    else if |lines[0]| >= StampLength then [lines[0]] + LongLines(lines[1..])
    else LongLines(lines[1..])
  }

  /** A timed line no older than the threshold. */
  predicate Fresh(line: string, now: int, threshold: int) {
    |line| >= StampLength && LineTime(line).Some? && now - LineTime(line).value <= threshold
  }

  /** Once the first fresh line is found every later line of 19 characters or more is kept. */
  lemma {:induction false} KeptAfterFresh(lines: seq<string>, now: int, threshold: int)
    ensures Kept(lines, now, threshold, false) == LongLines(lines)
    decreases |lines|
  {
    if lines != [] { KeptAfterFresh(lines[1..], now, threshold); }
  }

  /** When the first line does not keep the file, removeOutdated leaves exactly the first
      fresh line and every long line after it; with no fresh line, nothing. */
  lemma {:induction false} KeptFromFirstFresh(lines: seq<string>, now: int, threshold: int, i: nat)
    requires i <= |lines|
    requires forall k | 0 <= k < i :: !Fresh(lines[k], now, threshold)
    ensures i < |lines| && Fresh(lines[i], now, threshold) ==>
      Kept(lines, now, threshold, true) == [lines[i]] + LongLines(lines[i + 1..])
    ensures i == |lines| ==> Kept(lines, now, threshold, true) == []
    decreases i
  {
    if i == 0 {
      if 0 < |lines| && Fresh(lines[0], now, threshold) {
        KeptAfterFresh(lines[1..], now, threshold);
      }
    } else {
      assert !Fresh(lines[0], now, threshold);
      assert forall k | 0 <= k < i - 1 :: lines[1..][k] == lines[k + 1];
      KeptFromFirstFresh(lines[1..], now, threshold, i - 1);
      assert lines[1..][i - 1..] == lines[i..];
      if i < |lines| { assert lines[1..][i - 1 + 1..] == lines[i + 1..]; }
    }
  }

  /** Running removeOutdated twice with the same clock changes nothing the second time. */
  lemma PruneIdempotent(lines: seq<string>, now: int, threshold: int)
    ensures Pruned(Pruned(lines, now, threshold), now, threshold) == Pruned(lines, now, threshold)
  {
    var once := Pruned(lines, now, threshold);
    if !FirstLineFresh(lines, now, threshold) && once != [] {
      FirstOfKeptIsFresh(lines, now, threshold);
      var first := once[0];
      var p := GetTime(first[..StampLength]);
      assert p.ok && MkTime(p.tm) == LineTime(first).value;
      assert FirstLineFresh(once, now, threshold);
    }
  }

  /** The first line removeOutdated keeps, when it rewrites the file, is fresh. */
  lemma {:induction false} FirstOfKeptIsFresh(lines: seq<string>, now: int, threshold: int)
    requires Kept(lines, now, threshold, true) != []
    ensures Fresh(Kept(lines, now, threshold, true)[0], now, threshold)
    decreases |lines|
  {
    var line := lines[0];
    if |line| < StampLength || LineTime(line).None? || now - LineTime(line).value > threshold {
      FirstOfKeptIsFresh(lines[1..], now, threshold);
    }
  }
}
