# Temperature monitor: stores, roll-ups and the query server

The repository logs the readings of a serial temperature sensor. There are two generations of the program.

- **Task4** keeps three plain text files, CURRENT, HOUR and DAY. Each line reads
  `YYYY-MM-DD HH:MM:SS [value]`. One thread reads the port and appends the last reading in each chunk to CURRENT.
  - The HOUR roll-up averages CURRENT over one-hour buckets and appends one line per bucket to HOUR.
  - The DAY roll-up does the same from HOUR to DAY over one-day buckets.
  - A retention pass drops each file's outdated head.
- **Task5** keeps the same three stores as SQLite tables keyed by the timestamp text. A small HTTP server answers
  `GET /data?table=…&last=true` with the newest row and `GET /data?table=…&start=…&end=…` with the rows in a range.

This project models those operations in Dafny and proves what they promise:

- an average lies between the least and the greatest reading it averages;
- the written stamps read back as the time they were written for;
- a rerun of a roll-up writes nothing;
- Task5's retention keeps exactly the rows at or after the cutoff, and Task4's drops the file's outdated head;
- text order on stamps is time order;
- every query parameter's last occurrence wins;
- every reply can be parsed back.

Modules, one per file:

- `Strings` (strings.dfy) covers `std::string::find`, line splitting by getline, the C-string view of a buffer, `>>`
  word reading and the byte-wise text order SQLite uses.
- `Timestamps` (timestamps.dfy) covers `std::tm`, `mktime`, `localtime`, `put_time` and `get_time` on the format
  `%Y-%m-%d %H:%M:%S`.
- `StampOrder` (stamp_order.dfy) proves that comparing stamps as text compares the seconds they name.
- `FlatFileAggregator` (flat_file_aggregator.dfy) is Task4's `DataAggregator`. The class `FileStore` holds the
  file as a sequence of lines.
- `Monitor` (monitor.dfy) holds Task4's threads: the port reader's last-match scan and one pass of each roll-up and
  retention loop.
- `TableAggregator` (table_aggregator.dfy) is Task5's `DataAggregator`. The class `TableStore` holds the table as a
  map from stamp text to value.
- `FormEncoding` (form_encoding.dfy) is the form encoding the site's client applies to query values, and its
  decoding.
- `QueryServer` (query_server.dfy) is Task5's `handleClient`: the request line, the query, dispatch, the two reply
  bodies and the response framing.

Clock readings (`now`), the float-to-text conversions (`operator<<`, `std::stof`, `std::to_string`), the bytes
read from the port or socket and the tables of the database are parameters of the operations.

Four behaviours of the code are easy to miss, and the model keeps each of them:

- the roll-up averages over closed windows `[b, b + step]`, so a reading exactly on a boundary counts in two buckets;
- the last-record reply for an empty table is the bare heading `Latest record:\n`;
- Task4's retention drops only a prefix of the file;
- the two 400 replies return before the socket is closed.

Two defects are recorded under Findings below. The Task4 averages read each line with the corrected bracket check
(see Left out below). The query server keeps the code's undecoded parameters, and a decoding route stands beside it.

## Model

| member | source | states |
|---|---|---|
| Strings.Find | Task4/src/data_aggregator.cpp:78-79 | the index found holds the character, with none before it; None exactly when the character is absent |
| Strings.SplitOn | Task4/src/data_aggregator.cpp:66 | the file splits into at least one line, and no line holds the separator |
| Strings.JoinSplit | Task4/src/data_aggregator.cpp:49 | joining the lines back with the separator gives the file text unchanged |
| Strings.SplitJoin | Task4/src/data_aggregator.cpp:49 | lines free of the separator, joined and split again, come back as the same lines |
| Strings.SplitWithoutSeparator | Task4/src/data_aggregator.cpp:49 | text without a line break appends one line |
| Strings.GetlinePieces | Task5/src/server.cpp:158-160 | getline's pieces hold no separator |
| Strings.GetlineJoin | Task5/src/server.cpp:158-160 | getline over pieces joined with the separator yields the pieces again when the last is non-empty |
| Strings.CString | Task5/src/server.cpp:145-149 | the C-string view is a prefix free of NUL that stops at the first NUL |
| Strings.ReadWord | Task5/src/server.cpp:149-151 | `>>` yields a word without white space, and an empty word only at the end of input |
| Strings.TakeWordOf | Task5/src/server.cpp:149-151 | a word followed by white space or the end is read whole |
| Strings.ReadWordOf | Task5/src/server.cpp:149-151 | reading from "word rest" gives the word and leaves the rest |
| Strings.LexLessIrreflexive | Task5/src/data_aggregator.cpp:127 | no text sorts before itself |
| Strings.LexLessAsymmetric | Task5/src/data_aggregator.cpp:127 | the text order is asymmetric |
| Strings.LexLessTransitive | Task5/src/data_aggregator.cpp:127 | the text order is transitive |
| Strings.LexLessTotal | Task5/src/data_aggregator.cpp:172 | of two distinct texts one sorts first, so MIN and MAX are defined |
| Strings.LexLeTransitive | Task5/src/data_aggregator.cpp:127 | BETWEEN's bounds chain |
| Strings.LexLessCommonPrefix | Task5/src/data_aggregator.cpp:127 | a shared prefix does not change the order |
| Strings.LexLessAt | Task5/src/data_aggregator.cpp:127 | the first differing byte decides the order |
| Strings.LexLessConcat | Task5/src/data_aggregator.cpp:127 | fixed-width heads compare first, then the tails |
| Strings.SkipSpace | Task5/src/server.cpp:149-151 | leading white space is skipped, and the rest is a suffix of the input |
| Strings.TakeWord | Task5/src/server.cpp:149-151 | the word is a prefix without white space, ended by white space or the end |
| Timestamps.Truncate | Task4/src/data_aggregator.cpp:16-23 | HOUR zeroes minutes and seconds; DAY also zeroes the hour; the date is kept |
| Timestamps.DaysBeforeNextYear | Task4/src/data_aggregator.cpp:118 | mktime's day count grows by the year's length from one year to the next |
| Timestamps.DaysBeforeYearGrows | Task4/src/data_aggregator.cpp:118 | a later year starts at least 365 days per year later |
| Timestamps.LocalTimeRoundTrip | Task4/src/main.cpp:128-136 | localtime gives a valid date, and mktime of it is the same second |
| Timestamps.TruncateAligns | Task4/src/main.cpp:128-136 | zeroing fields rounds the second down to its hour or day |
| Timestamps.MkTimeTruncate | Task4/src/main.cpp:131-136 | mktime of a truncated time subtracts the zeroed hours, minutes and seconds |
| Timestamps.SetField | Task4/src/data_aggregator.cpp:116 | get_time stores one field and leaves the others |
| Timestamps.Digits | Task4/src/main.cpp:165 | a zero-padded field prints exactly its width in digits |
| Timestamps.DigitsRoundTrip | Task4/src/data_aggregator.cpp:116 | a zero-padded field reads back as its value |
| Timestamps.PutTime | Task4/src/main.cpp:165 | put_time prints the format's total width |
| Timestamps.PutTimeCharacters | Task4/src/main.cpp:165 | put_time prints digits and the format's literals only |
| Timestamps.FormatAvoids | Task4/src/main.cpp:165 | a stamp holds no bracket and no line break |
| Timestamps.Scan | Task4/src/data_aggregator.cpp:116 | get_time leaves a broken-down time mktime accepts, even when it fails |
| Timestamps.AssignFields | Task4/src/data_aggregator.cpp:116 | after a parse, each field named by the format holds the parsed value; the others keep their old values |
| Timestamps.ScanPutTime | Task4/src/data_aggregator.cpp:116 | get_time reads back what put_time printed, whatever follows |
| Timestamps.ScanPrefix | Task4/src/data_aggregator.cpp:115 | get_time on `substr(0, 19)` reads what it reads on the whole line |
| Timestamps.GetTimeFormat | Task4/src/data_aggregator.cpp:41-44 | a printed stamp is accepted and parses to the printed fields |
| Timestamps.GetTimePrefix | Task4/src/data_aggregator.cpp:69-70 | parsing the 19-character prefix equals parsing the line |
| Timestamps.Format | Task4/src/data_aggregator.cpp:26 | every stamp is 19 characters long |
| Timestamps.TimeText | Task5/src/data_aggregator.cpp:139-145 | the stamp of a second is 19 characters long |
| Timestamps.TimeTextRoundTrip | Task4/src/data_aggregator.cpp:68-73 | a stamp written for a second is accepted and mktime gives that second back |
| StampOrder.DigitsInjective | Task5/src/data_aggregator.cpp:127 | equal padded digit strings have equal values |
| StampOrder.DigitsOrder | Task5/src/data_aggregator.cpp:127 | padded numbers compare as text exactly as numbers, both directions |
| StampOrder.PutTimeOrder | Task5/src/data_aggregator.cpp:127 | printed times compare as text exactly as their fields compare in format order |
| StampOrder.StampFieldsLess | Task5/src/data_aggregator.cpp:127 | the stamp format's field order is calendar order |
| StampOrder.MonthsGrow | Task5/src/data_aggregator.cpp:193 | later months start later in the year |
| StampOrder.DayInYear | Task5/src/data_aggregator.cpp:193 | a valid date's day number lies within its year |
| StampOrder.DayNumberOrder | Task5/src/data_aggregator.cpp:193 | an earlier date has a smaller day number |
| StampOrder.BeforeIsEarlier | Task5/src/data_aggregator.cpp:193 | mktime preserves calendar order |
| StampOrder.FormatBeforeIsEarlier | Task5/src/data_aggregator.cpp:127 | a stamp printed earlier as text names an earlier second |
| StampOrder.TextBeforeIsEarlier | Task5/src/data_aggregator.cpp:127 | text order of stamps implies time order |
| StampOrder.TimeTextFields | Task5/src/data_aggregator.cpp:139-145 | a second's stamp is its valid broken-down time, printed |
| StampOrder.TimeTextInjective | Task5/src/data_aggregator.cpp:95 | distinct seconds have distinct stamps, so the primary key holds one row per second |
| StampOrder.TimeTextOrder | Task5/src/data_aggregator.cpp:127 | stamps compare as text, strictly or not, exactly as their seconds compare |
| Timestamps.FormatLayout | Task5/src/data_aggregator.cpp:139-145 | a printed stamp is a date of digits and '-', a space at index 10, then a clock of digits and ':' |
| FormEncoding.DecodeEncode | Task5/PySite.py:13 | form-decoding undoes the encoding the client applies to each value |
| FormEncoding.EncodeIsEncoded | Task5/PySite.py:13 | an encoded value holds only letters, digits, "_.-~", '+' and '%' |
| FormEncoding.EncodeUnreserved | Task5/PySite.py:13 | letters, digits and "_.-~" pass through the encoding unchanged |
| FormEncoding.EncodeAppend | Task5/PySite.py:13 | the encoding of a concatenation is the concatenation of the encodings |
| FlatFileAggregator.ValueText | Task4/src/data_aggregator.cpp:78-82 | a line has value text exactly when it holds both '[' and ']' |
| FlatFileAggregator.Reading | Task4/src/data_aggregator.cpp:67-91 | a line contributes a reading only when it holds both brackets and is timed inside the window |
| FlatFileAggregator.ValueTextAgreesWithBracket | Task4/src/data_aggregator.cpp:78-82 | on lines holding '[' the code's value text is the intended one |
| FlatFileAggregator.MissingOpenBracketCountsAsWritten | Task4/src/data_aggregator.cpp:78-82 | a line that lost its '[' yields no reading as intended, yet stof of the line's head as written |
| FlatFileAggregator.AverageAgreesWhenBracketed | Task4/src/data_aggregator.cpp:66-98 | when every timed line holds '[', the readings and the average as the code computes them equal the corrected ones |
| FlatFileAggregator.FindAfter | Task4/src/data_aggregator.cpp:79 | find skips a head without the character |
| FlatFileAggregator.ReadingsStep | Task4/src/data_aggregator.cpp:66-93 | the readings of one more line end with that line's reading, if any |
| FlatFileAggregator.ReadLine | Task4/src/data_aggregator.cpp:67-91 | one loop pass yields the line's reading: length, parse, mktime, window, brackets and stof, in that order, with the corrected bracket check |
| FlatFileAggregator.CurrentTimestamp | Task4/src/data_aggregator.cpp:11-28 | a 19-character accepted stamp of the clock, rounded down to the resolution's hour or day |
| FlatFileAggregator.StampToWrite | Task4/src/data_aggregator.cpp:37-48 | an accepted stamp is written as given; an empty or rejected one is replaced by the rounded clock |
| FlatFileAggregator.FileStore.constructor | Task4/src/data_aggregator.cpp:30-31 | the store opens on the file's existing lines |
| FlatFileAggregator.FileStore.AddTemperature | Task4/src/data_aggregator.cpp:33-54 | appends exactly the entry `<stamp> [<value>]`; the old lines are untouched |
| FlatFileAggregator.FileStore.GetAverageTemperature | Task4/src/data_aggregator.cpp:56-99 | the mean of the readings on lines timed in [start, end], 0 when there are none, with the corrected bracket check |
| FlatFileAggregator.FileStore.GetFirstDate | Task4/src/data_aggregator.cpp:102-135 | the first line's time, or the clock when the file is empty or its first line is untimed |
| FlatFileAggregator.FileStore.GetLastDate | Task4/src/data_aggregator.cpp:137-189 | the time of the last timed line, or the resolution's default time |
| FlatFileAggregator.FileStore.RemoveOutdated | Task4/src/data_aggregator.cpp:191-280 | a fresh first line leaves the file alone; otherwise the file becomes the lines of at least 19 characters from the first fresh one, or none when no line is fresh |
| FlatFileAggregator.WrittenLineReading | Task4/src/data_aggregator.cpp:49 | a written entry reads back its time, and its value exactly in windows holding that time |
| FlatFileAggregator.KeptLines | Task4/src/data_aggregator.cpp:251-278 | the rewrite loop writes exactly the kept lines |
| FlatFileAggregator.KeepLine | Task4/src/data_aggregator.cpp:253-276 | one loop pass keeps the line and updates the still-outdated flag as the recursive definition does |
| FlatFileAggregator.EntryValueText | Task4/src/data_aggregator.cpp:49 | between an entry's brackets lies the value's printed text |
| FlatFileAggregator.TimeTextHasNoBrackets | Task4/src/data_aggregator.cpp:26 | a stamp holds no bracket and no line break |
| FlatFileAggregator.ReadingsAppend | Task4/src/data_aggregator.cpp:66-93 | appending lines appends their readings |
| FlatFileAggregator.AverageOfWrittenLine | Task4/src/data_aggregator.cpp:49 | written into an otherwise empty window, the average is the value written |
| FlatFileAggregator.EmptyWindowAveragesZero | Task4/src/data_aggregator.cpp:96 | a window with end before start has no readings and averages 0 |
| FlatFileAggregator.UntimedLinesContributeNothing | Task4/src/data_aggregator.cpp:67-74 | short and unparseable lines never count |
| FlatFileAggregator.ReadingsComeFromWindow | Task4/src/data_aggregator.cpp:77 | every reading counted comes from a line timed inside the window |
| FlatFileAggregator.MeanWithinBounds | Task4/src/data_aggregator.cpp:97-98 | the mean lies between the smallest and the largest reading |
| FlatFileAggregator.SumBounds | Task4/src/data_aggregator.cpp:97 | the sum of n readings lies between n times the lower and n times the upper bound |
| FlatFileAggregator.SumToBounds | Task4/src/data_aggregator.cpp:97 | the same bounds hold for every prefix sum |
| FlatFileAggregator.FirstDateStableUnderAppend | Task4/src/data_aggregator.cpp:112-121 | appending never changes the first date of a non-empty file |
| FlatFileAggregator.FirstDateIsNotTheMinimum | Task4/src/data_aggregator.cpp:112-121 | a file whose first line is later than its second reports the later time |
| FlatFileAggregator.LineTimeOfEntry | Task4/src/data_aggregator.cpp:49 | an entry's stamp reads back as its time |
| FlatFileAggregator.LineTimeOfStamped | Task4/src/data_aggregator.cpp:67-74 | a line starting with a second's stamp is timed at that second |
| FlatFileAggregator.LastTimedIsLast | Task4/src/data_aggregator.cpp:150-176 | no time is found exactly when no line is timed; otherwise it is the time of a line after which none is timed |
| FlatFileAggregator.LastDateAfterTimedAppend | Task4/src/data_aggregator.cpp:150-176 | after appending a timed line, the last date is that line's time |
| FlatFileAggregator.KeptIsSubsequence | Task4/src/data_aggregator.cpp:251-278 | the rewrite keeps old lines in their old order, each of at least 19 characters |
| FlatFileAggregator.PrunedIsSubsequence | Task4/src/data_aggregator.cpp:216-278 | retention only deletes lines and never reorders them |
| FlatFileAggregator.KeptAfterFresh | Task4/src/data_aggregator.cpp:274-276 | after the first fresh line, every line of 19 characters or more is kept |
| FlatFileAggregator.KeptFromFirstFresh | Task4/src/data_aggregator.cpp:251-278 | the rewrite leaves the first fresh line and the long lines after it, or nothing when no line is fresh |
| FlatFileAggregator.PruneIdempotent | Task4/src/data_aggregator.cpp:191-280 | a second retention pass with the same clock changes nothing |
| FlatFileAggregator.FirstOfKeptIsFresh | Task4/src/data_aggregator.cpp:268-273 | the first line kept by the rewrite is fresh |
| Monitor.DigitRun | Task4/src/main.cpp:33 | `\d` runs stop at the first non-digit |
| Monitor.DigitRunDigits | Task4/src/main.cpp:33 | every character of a run is a digit |
| Monitor.MatchEnd | Task4/src/main.cpp:33 | a match starts with '[' and ends with ']', at least four characters later |
| Monitor.MatchInterior | Task4/src/main.cpp:33 | a match holds no '[' after its first character |
| Monitor.LastMatchStartIsRightmost | Task4/src/main.cpp:92-96 | the scan finds the rightmost match, and none only when there is none |
| Monitor.NoMatchInside | Task4/src/main.cpp:93-96 | the iterator resumes after a match without finding a match inside it |
| Monitor.ScanLastMatch | Task4/src/main.cpp:89-96 | the loop over sregex_iterator keeps the capture of the last match |
| Monitor.DigitRunExact | Task4/src/main.cpp:33 | a run of n digits ended by a non-digit has length n |
| Monitor.ChunkEndingInReading | Task4/src/main.cpp:89-97 | a chunk ending in `[±d(d).d+]` yields that reading as its last match |
| Monitor.MatchedAt | Task4/src/main.cpp:33 | a bracketed signed one- or two-digit decimal is a match |
| Monitor.ReadingIsLast | Task4/src/main.cpp:93-96 | no match starts inside a trailing reading |
| Monitor.NoOpenBracketNoMatch | Task4/src/main.cpp:93-96 | without '[' there is no match |
| Monitor.LastMatchStartStable | Task4/src/main.cpp:93-96 | a later match found from a later position is the last from any earlier one |
| Monitor.ThreeDigitWholePartRejected | Task4/src/main.cpp:33 | `[100.5]` is not a reading: the whole part has at most two digits |
| Monitor.IngestChunk | Task4/src/main.cpp:87-106 | CURRENT grows by the entry for the chunk's last match, when stof accepts it, or not at all |
| Monitor.IngestStoresLastReading | Task4/src/main.cpp:87-106 | a chunk ending in a reading appends exactly that reading under the clock's stamp |
| Monitor.NoNulInReading | Task4/src/main.cpp:87-89 | a reading holds no NUL, so the C-string view keeps it |
| Monitor.CurrentTimestampHasNoNewline | Task4/src/data_aggregator.cpp:11-28 | the clock stamp is one line |
| Monitor.NoNewlineInEntry | Task4/src/data_aggregator.cpp:49 | an entry is one line when its value text is |
| Monitor.Align | Task4/src/main.cpp:128-157 | the aligned time is on the hour (or midnight for day steps), not after the time, and within one unit of it |
| Monitor.DayStart | Task4/src/main.cpp:133-135 | midnight rounding stays in range, on the hour and within the day |
| Monitor.HourStart | Task4/src/main.cpp:131-132 | hour rounding stays in range and within the hour |
| Monitor.AlignByCalendar | Task4/src/main.cpp:128-157 | zeroing localtime's fields and calling mktime gives the aligned time |
| Monitor.Buckets | Task4/src/main.cpp:159 | the bucket starts begin at the start, stay before the end, and the last lies within one step of it |
| Monitor.BucketsAreSteps | Task4/src/main.cpp:159 | the k-th bucket starts k steps after the start |
| Monitor.BucketCount | Task4/src/main.cpp:159 | the buckets cover the interval with less than one step to spare |
| Monitor.BucketsOnTheHour | Task4/src/main.cpp:159 | buckets from an hour boundary in whole hours stay on the hour |
| Monitor.BucketTableTabulates | Task4/src/main.cpp:160-167 | every bucket has the lines its average writes |
| Monitor.MonitorTemperature | Task4/src/main.cpp:117-170 | the destination grows by the averaged lines of the buckets from the aligned start to the aligned clock |
| Monitor.WriteBuckets | Task4/src/main.cpp:159-169 | the loop appends each bucket's lines in bucket order |
| Monitor.WriteBucket | Task4/src/main.cpp:160-167 | one pass appends the bucket's averaged entry |
| Monitor.BucketLines | Task4/src/main.cpp:160-167 | a bucket's lines are its average written under its own stamp |
| Monitor.StampKept | Task4/src/main.cpp:163-167 | the bucket's stamp is accepted and written as given |
| Monitor.HourRollUp | Task4/src/main.cpp:173-178 | HOUR grows by CURRENT's one-hour averages |
| Monitor.DayRollUp | Task4/src/main.cpp:181-186 | DAY grows by HOUR's one-day averages |
| Monitor.RemoveUnactual | Task4/src/main.cpp:189-196 | each of the three files is pruned against its own threshold |
| Monitor.RolledOneLineEach | Task4/src/main.cpp:159-169 | one line per bucket, in bucket order |
| Monitor.OneStampedLine | Task4/src/main.cpp:163-167 | a bucket writes one line, timed at the bucket's start |
| Monitor.RolledStampsAreSteps | Task4/src/main.cpp:159-167 | the roll-up writes one line per bucket, and its k-th line is timed k steps after the start |
| Monitor.BucketEntryOneLine | Task4/src/main.cpp:167 | an averaged entry is a single line |
| Monitor.BoundaryReadingCountsTwice | Task4/src/main.cpp:160-161 | windows are closed, so a reading stamped on the boundary between two buckets counts in both, as the same reading, whenever its value text reads |
| Monitor.RerunWritesNothing | Task4/src/main.cpp:123-159 | a second roll-up with the same clock starts at or past the end and writes nothing |
| Monitor.RollUpStartOnTheHour | Task4/src/main.cpp:123-140 | a start before the end is in range and on the hour |
| Monitor.RerunAfterWriting | Task4/src/main.cpp:123-126 | after writing, the next start is at or past the end |
| Monitor.RolledEndsWithLastBucket | Task4/src/main.cpp:124 | after a roll-up the destination's last date is the last bucket, within one step of the end |
| Monitor.LastBucketWritten | Task4/src/main.cpp:159-169 | the last line written carries the last bucket's start |
| Monitor.PastTheEnd | Task4/src/main.cpp:124-140 | a last date within one step of the end puts the next start at or past the end |
| Monitor.AlignIdempotent | Task4/src/main.cpp:128-140 | aligning twice is aligning once |
| Monitor.AlignMonotone | Task4/src/main.cpp:128-157 | alignment preserves order |
| TableAggregator.LeastIsUnique | Task5/src/data_aggregator.cpp:172 | MIN(timestamp) names at most one row |
| TableAggregator.GreatestIsUnique | Task5/src/data_aggregator.cpp:222 | MAX(timestamp) names at most one row |
| TableAggregator.LeastExists | Task5/src/data_aggregator.cpp:172 | a non-empty table has a least stamp |
| TableAggregator.GreatestExists | Task5/src/data_aggregator.cpp:222 | a non-empty table has a greatest stamp |
| TableAggregator.Least | Task5/src/data_aggregator.cpp:172 | MIN is a key no key sorts before |
| TableAggregator.Greatest | Task5/src/data_aggregator.cpp:222 | MAX is a key no key sorts after |
| TableAggregator.Window | Task5/src/data_aggregator.cpp:127 | BETWEEN selects only rows of the table |
| TableAggregator.MinKey | Task5/src/data_aggregator.cpp:172-187 | MIN is NULL exactly on an empty table |
| TableAggregator.MaxKey | Task5/src/data_aggregator.cpp:222-238 | MAX is NULL exactly on an empty table |
| TableAggregator.SameClock | Task5/src/data_aggregator.cpp:279-291 | shifting the date by whole days shifts the second by whole days |
| TableAggregator.YearBack | Task5/src/data_aggregator.cpp:283 | one year back is 365 or 366 days back |
| TableAggregator.MonthBack | Task5/src/data_aggregator.cpp:286 | one month back is the previous month's length back |
| TableAggregator.CutoffAge | Task5/src/data_aggregator.cpp:279-291 | the cutoff lies one day, one previous-month length or one year before the clock |
| TableAggregator.Retained | Task5/src/data_aggregator.cpp:279 | DELETE keeps a subset of the rows with their values |
| TableAggregator.TableStore.constructor | Task5/src/data_aggregator.cpp:47-73 | the store opens on the table's rows, with the resolution's threshold |
| TableAggregator.TableStore.AddTemperature | Task5/src/data_aggregator.cpp:76-116 | INSERT OR REPLACE sets the row under the given stamp, or the clock's when none is given; a failed connection or prepare changes nothing |
| TableAggregator.TableStore.GetAverageTemperature | Task5/src/data_aggregator.cpp:122-164 | the average of the rows between the two stamps, 0 when there are none or the store is down |
| TableAggregator.TableStore.GetFirstDate | Task5/src/data_aggregator.cpp:167-212 | the time of the least stamp, or the clock |
| TableAggregator.TableStore.GetLastDate | Task5/src/data_aggregator.cpp:215-272 | the time of the greatest stamp, or the resolution's default time |
| TableAggregator.TableStore.RemoveOutdated | Task5/src/data_aggregator.cpp:274-310 | the table keeps exactly the rows not before the cutoff stamp |
| TableAggregator.StampTimeOfText | Task5/src/data_aggregator.cpp:188-195 | a stored stamp parses to its second |
| TableAggregator.EmptyStampIsClock | Task5/src/data_aggregator.cpp:83-90 | an empty stamp stores the clock's full-precision stamp |
| TableAggregator.GivenStampIsKept | Task5/src/data_aggregator.cpp:91-93 | a given stamp is stored as given |
| TableAggregator.WindowIsTimeWindow | Task5/src/data_aggregator.cpp:127 | over stamps, BETWEEN selects exactly the rows timed in [start, end] |
| TableAggregator.SumOverRemove | Task5/src/data_aggregator.cpp:127 | the sum over a set splits off any one of its rows |
| TableAggregator.SumOverAgree | Task5/src/data_aggregator.cpp:127 | the sum depends only on the rows summed |
| TableAggregator.SumOverBounds | Task5/src/data_aggregator.cpp:127 | the sum of n bounded rows lies between n times each bound |
| TableAggregator.AverageWithinBounds | Task5/src/data_aggregator.cpp:127-157 | AVG lies between the least and the greatest value in the window, and is 0 over an empty window |
| TableAggregator.InsertOutsideWindow | Task5/src/data_aggregator.cpp:95 | a row stored outside a window leaves its average unchanged |
| TableAggregator.InsertInsideWindow | Task5/src/data_aggregator.cpp:95 | a new row inside a window joins its sum and count |
| TableAggregator.InsertTwice | Task5/src/data_aggregator.cpp:95 | a second insert under a stamp replaces the first and adds no row |
| TableAggregator.FirstDateIsEarliest | Task5/src/data_aggregator.cpp:172-195 | over stamp keys, the first date is the earliest stored time |
| TableAggregator.LastDateIsLatest | Task5/src/data_aggregator.cpp:222-248 | over stamp keys, the last date is the latest stored time |
| TableAggregator.RetainedByTime | Task5/src/data_aggregator.cpp:279-291 | a second's row survives exactly when it is not before the cutoff time |
| QueryServer.RequestLine | Task5/src/server.cpp:149-151 | method and path are words without white space |
| QueryServer.RequestLineRoundTrip | Task5/src/server.cpp:149-151 | a request line "verb path protocol" reads back as its three words |
| QueryServer.QueryOf | Task5/src/server.cpp:154-155 | the query is the text after the first '?', with no '?' before it, or the whole path when there is none |
| QueryServer.KeyValue | Task5/src/server.cpp:161-164 | a parameter splits at its first '=', and is ignored exactly when it has none |
| QueryServer.KeyValueOf | Task5/src/server.cpp:161-164 | a piece written as a key without '=', '=' and a value reads back as that key and value |
| QueryServer.ParseQuery | Task5/src/server.cpp:156-175 | the loop yields the parameters of the query |
| QueryServer.AssignAllSnoc | Task5/src/server.cpp:160-175 | one more piece updates the parameters it names |
| QueryServer.AssignAllIsLast | Task5/src/server.cpp:160-175 | each parameter is the value of its key's last piece, or stays unchanged |
| QueryServer.ParamsAreLastValues | Task5/src/server.cpp:156-175 | the query's parameters are its keys' last values, empty when absent |
| QueryServer.Dispatch | Task5/src/server.cpp:181-196 | missing table, last record, range or invalid, each exactly under its condition |
| QueryServer.Dates | Task5/src/server.cpp:126 | the dates are the records' first columns, in order |
| QueryServer.HandleRange | Task5/src/server.cpp:115-135 | the error text when the statement does not prepare; otherwise the heading and one line per row of the window, each row once |
| QueryServer.RecordStep | Task5/src/server.cpp:125-129 | one stepped row extends the listing and the body by its line |
| QueryServer.ListingDone | Task5/src/server.cpp:125 | when no row is pending, the records list the window |
| QueryServer.HandleClient | Task5/src/server.cpp:137-205 | the reply to the chunk's route, and the range rows are those of the window |
| QueryServer.ReadRequest | Task5/src/server.cpp:149-175 | the request's route: data with its parameters, or not found |
| QueryServer.Answer | Task5/src/server.cpp:177-202 | the reply to a route |
| QueryServer.SplitRoundTrip | Task5/src/server.cpp:77-80 | a status line is cut at its CR |
| QueryServer.FrameRoundTrip | Task5/src/server.cpp:76-82 | a response parses back into its status and body |
| QueryServer.RepliesUnframe | Task5/src/server.cpp:84-94 | every reply the server sends parses back |
| QueryServer.NulEndsRequest | Task5/src/server.cpp:145-149 | bytes after a NUL do not change the route |
| QueryServer.DataPath | Task5/src/server.cpp:153-155 | `/data?q` is a data path with query q |
| QueryServer.DataQueryRoute | Task5/src/server.cpp:149-175 | `GET /data?q HTTP/1.1` routes to the dispatch of q's parameters, decoded or not |
| QueryServer.DataRequestRoute | Task5/src/server.cpp:149-196 | a data request with '&'-joined pieces dispatches on each key's last value, decoded or not |
| QueryServer.PathWord | Task5/src/server.cpp:151 | a data path is one word |
| QueryServer.JoinedAvoids | Task5/src/server.cpp:160 | joining keeps a character out |
| QueryServer.JoinedWord | Task5/src/server.cpp:160 | joined words stay one word |
| QueryServer.LatestRecordIsLatest | Task5/src/server.cpp:96-113 | over stamp keys, the last-record reply shows the row with the latest time |
| QueryServer.EmptyTableLastRecord | Task5/src/server.cpp:101-107 | an empty table answers the heading alone |
| QueryServer.RangeIsTimeWindow | Task5/src/server.cpp:115-135 | when handleRangeRequest is handed printed stamps as bounds, the rows listed are exactly those timed in [start, end], each once; a request never hands it such bounds (see Findings) |
| QueryServer.CaseBlindNames | Task5/src/server.cpp:98-99 | table names that differ only in the case of their letters prepare alike, denote the same rows and get the same last-record reply |
| QueryServer.UpperCaseNameFindsTable | Task5/src/server.cpp:117-119 | `table=DATA_CURRENT` reads the table created as data_current |
| QueryServer.RangeBoundsAreNotStamps | Task5/src/server.cpp:149-175 | the bounds of every range request hold no white space, so neither is ever a printed stamp |
| QueryServer.BoundPastSpace | Task5/src/server.cpp:117-122 | a bound made of a stamp's date and then a character above the space sorts after that stamp |
| QueryServer.EncodedStamp | Task5/PySite.py:13 | the client's encoding of a stamp keeps its date and turns the following space into '+' |
| QueryServer.EncodedRangeShiftsDays | Task5/src/server.cpp:117-122 | with encoded bounds, no row of the first day is listed, and every row of the last day from the start on is |
| QueryServer.ClientRangeRoute | Task5/src/server.cpp:149-196 | the site's range request routes to a range over the encoded values as written, and over the plain values when decoded |
| QueryServer.ClientRangeMissesItsStart | Task5/src/server.cpp:115-135 | as written, the site's range request for [lo, hi] does not list the row at lo, though that row lies in the time window |
| QueryServer.ClientRangeDecodedIsTimeWindow | Task5/src/server.cpp:115-135 | with the values decoded, the site's range request for [lo, hi] selects exactly the rows timed in [lo, hi] |

## Left out

- The port, files, sockets, threads, mutexes and the `while (true)` loops with their sleeps are left out. Each loop body is modelled as one operation (`Monitor.IngestChunk`, `Monitor.HourRollUp`, `Monitor.DayRollUp`, `Monitor.RemoveUnactual`, `QueryServer.HandleClient`), and the clock, port and socket data are parameters.
- Opening the port and its read errors in monitorCurrentTemperature (Task4/src/main.cpp:57-86) are left out. A chunk is whatever one read delivered, at most 24 bytes.
- Messages on std::cout and std::cerr are left out.
- A Task4 file that cannot be opened reads like an empty file. A failure to open it for writing in addTemperature or removeOutdated is not modelled.
- Float arithmetic is not modelled. The averages are exact real numbers, and `float` and `double` rounding is not captured.
- The float-to-text conversions are parameters: `operator<<` and `std::stof` are `FloatText`, and `std::to_string` is `toText`.
- Time zones are not modelled. localtime and mktime are taken as UTC without daylight saving, on one timeline of integer seconds.
- Times are modelled only in the years 1000 to 9999, which is `InRange`. Operations that call localtime require their times in that range.
- get_time is modelled on the fixed-width form only: exactly 4, 2, 2, 2, 2 and 2 digits with single separators. Its leniency with fewer digits or extra white space is not captured.
- FlatFileAggregator.FileStore.GetAverageTemperature: reads each line with the corrected bracket check (`FlatFileAggregator.Reading`), as do `FlatFileAggregator.ReadLine` and the roll-ups built on them (`Monitor.MonitorTemperature`, `Monitor.HourRollUp`, `Monitor.DayRollUp`). The code's reading is `FlatFileAggregator.ReadingAsWritten`, and `FlatFileAggregator.AverageAgreesWhenBracketed` proves the two averages equal when every timed line holds '['.
- FlatFileAggregator.ReadLine: reads the line with the corrected bracket check. The code's reading is `FlatFileAggregator.ReadingAsWritten`, which reads a line without '[' from its first character.
- Monitor.HourRollUp: averages CURRENT with the corrected bracket check, through `Monitor.MonitorTemperature`. The averages equal the code's when every timed line holds '[' (`FlatFileAggregator.AverageAgreesWhenBracketed`).
- Monitor.DayRollUp: averages HOUR with the corrected bracket check, through `Monitor.MonitorTemperature`. The averages equal the code's when every timed line holds '[' (`FlatFileAggregator.AverageAgreesWhenBracketed`).
- Monitor.MonitorTemperature: averages each bucket with the corrected bracket check (`FlatFileAggregator.AverageOf`), not the code's (`FlatFileAggregator.AverageOfAsWritten`). It requires the clock to be in range. The code's return when localtime of the clock fails (Task4/src/main.cpp:152-155) is therefore not modelled. A start out of range takes the code's fallback to the clock.
- TableAggregator.TableStore.GetAverageTemperature: requires both bounds to be in range, because the code dereferences localtime's result there.
- TableAggregator.TableStore.RemoveOutdated: requires the clock to be at least a year and a day after the first modelled time, so that the cutoff can be printed.
- TableAggregator.TableStore.AddTemperature: requires the clock to be in range only when no stamp is given, for the same reason.
- SQLite is modelled as one map from stamp text to value per table. Two flags stand in for everything that can go wrong:
  - `connected` for a missing connection;
  - `prepares` for a failed prepare.

  Errors of `sqlite3_step` are not modelled. getDatabase's retry on a failed open (Task5/src/data_aggregator.cpp:10-24) is not modelled either.
- SQLite's own collation, affinity and NULL handling are not modelled beyond byte-wise text order on stamp keys.
- removeOutdated's `datetime('now', …)` is evaluated on the same timeline as the stored stamps. SQLite computes it in UTC while the stamps are local time, and that offset is not modelled. Month and year arithmetic normalise an overflowing day the way mktime does.
- A table name holding a double quote is modelled as a statement that fails to prepare (`QueryServer.Prepares`). SQL injection through a crafted name is not modelled.
- Table names match ignoring the case of ASCII letters, as in SQLite, so the database is keyed by lower-case names (`QueryServer.Fold`). Case folding beyond ASCII is not modelled.
- Task5's getCurrentTimestamp (Task5/src/data_aggregator.cpp:27-44) is not called by Task5's store. It is the same code as Task4's, which is modelled by `FlatFileAggregator.CurrentTimestamp`.
- Task5's constructor's `CREATE TABLE` is not modelled: a store opens on the rows it is given. Its `timeThreshold` is recorded but, as in the code, unused by removeOutdated.
- handleClient's recv is one call delivering at most 1023 bytes. A chunk is what it delivered; an empty chunk stands for a failed recv or a closed peer and gets no reply.
- Partial sends are not modelled.
- QueryServer.HandleRange: the order in which SQLite yields the rows is not fixed. The contract states that the records are exactly the window's rows, each once, in some order.
- Task5/src/emulated_device.cpp, the GUI (Task6) and the process utilities (Task2, Task3) are not part of this model. Of the Python site (Task5/PySite.py), only the request its range fetch writes is modelled (`QueryServer.ClientRangeRequest`).
- The client's encoding is modelled on ASCII values only. Its UTF-8 encoding of other characters is not modelled.
- QueryServer.HandleClient: keeps the code's route, which does not decode the parameters. `QueryServer.RouteOfDecoded` is the corrected route; no reply method is built on it.

## Findings

| source | as written | input that shows it | evidently intended | confidence | as-written member | corrected member |
|---|---|---|---|---|---|---|
| Task4/src/data_aggregator.cpp:78-82 | `line.find('[') + 1` wraps npos round to 0, so the guard `startPos != npos` never fails and a line without '[' is read from its first character | a line `2024-05-01 12:00:00 21.5]` timed in the window: stof reads the year and the line counts as a reading of 2024 | a line without '[' contributes no reading | not executed | FlatFileAggregator.MissingOpenBracketCountsAsWritten | FlatFileAggregator.Reading |
| Task5/src/server.cpp:154-175 | the query is split and its values are bound as they arrive, never form-decoded, while the site's client (Task5/PySite.py:13, 93) form-encodes them | the site asks for 2024-05-01 00:00:00 to 2024-05-02 00:00:00 and sends `start=2024-05-01+00%3A00%3A00`; '+' sorts after the stamps' space, so no row of 2024-05-01 is listed, while every row of 2024-05-02 is | the values are decoded before they are bound, and the reply lists the rows of the time window | not executed | QueryServer.ClientRangeMissesItsStart | QueryServer.ClientRangeDecodedIsTimeWindow |
