# GQ GMC-320 history log: a verified model

This project models the data path of a small Python 2 tool that reads the
history log of a GQ GMC-320 Geiger counter and prints it as time-stamped counts.
The tool exists in two near-identical versions: `gmcparse5.py` is the
command-line version and `gmcparse6.py` is the GUI version. The model has
three layers.

1. **The wire protocol** (`wire.dfy`).
   - The `<SPIR a2 a1 a0 l1 l0>>` flash-read command asks for one byte less
     than it means to read. It then reads the full length, to work around
     the firmware.
   - The `<GETDATETIME>>` reply decodes to a date and time.
   - The `<GETCPM>>` reply decodes to a count.
   - The serial port is a function `Link` from the command written and the
     read length to the bytes that come back. `DeviceReply` is the firmware
     behaviour described in the source, and it shows why the workaround is
     needed.
2. **The history reader** `readHIST` (`history.dfy`). It reads 4096-byte
   pages 0, 1, … and stops after the first page after which the buffer ends
   in `FF FF FF`, or after page 15. It then strips the trailing erased flash.
   It is written as a loop over an abstract link and proved against `Pages`,
   `PageLog` and `StripErased`.
3. **The log decoder** `analyse` (`decoder.dfy`, `sink.dfy`, `gmcparse5.dfy`,
   `gmcparse6.dfy`).
   - The image is a stream of raw count bytes with three kinds of tagged
     record: the time marker `55 AA 00 yy mm dd hh mm ss 55 AA id`, the
     two-byte count `55 AA 01 H L` and the string tag `55 AA 02 L …`.
   - `Decoder.Step` decodes one record and `Decoder.Run` decodes the whole
     pass. Both are reference functions that follow the Python code branch
     by branch, including where it raises:
     - a look-ahead past the end of the buffer is Python's `IndexError`;
     - date bytes that `datetime` refuses are its `ValueError`, raised after
       the interval switch has already happened;
     - `exit(1)` is taken once the cursor passes 65536.
   - Each version's `analyse` is an imperative loop over the cursor, the
     interval id, the tick and the time stamp. It is proved to produce:
     - `GmcParse5`: the screen output, the report file and the way the run
       ends;
     - `GmcParse6`: the form output, the report file and the returned
       message.

Time stamps are `Calendar.Clock` values: a valid Python `datetime`, plus a
number of seconds. Python's `datenow += tick` adds to the seconds. `Instant`
gives the point in time as the proleptic Gregorian ordinal (`toordinal()`)
times 86400, plus the seconds of the day and the added seconds. `datenow.year < 2000` becomes `Instant(datenow) <
Y2K`, and `ReachableBefore2000` proves this is the same as the year test on
every state the pass reaches.

Behaviour worth knowing, all proved:
- Count time stamps never decrease between two markers, because every count
  advances the clock by one tick (`SamplesNonDecreasing` from any state the
  pass reaches; `StampsNonDecreasingInImage` on the decode of a whole image). A later marker
  can set the clock back, so they are not ordered across markers
  (`MarkerMayGoBack`).
- `*** done ***` is the last line of the form only when the loop runs to the
  end of the data. When a record raises or the program exits, nothing
  follows (`DoneIsLast`).
- The look-ahead raises when the cursor reaches a `55` in the last position
  of the buffer, or `55 AA` in the last two positions (`LookAheadFails`).
  This includes a last raw count of 85. The error is kept as
  `Failed(IndexOutOfRange(i))` with `i` the length of the buffer.
- The ceiling `exit(1)` needs a buffer of more than 65281 bytes. Within
  65536 bytes it follows only a string tag whose length byte points past
  the buffer (`AbortedOnlyNearCeiling`). Both ways occur: 65537 plain counts
  exit (`LongImageExits`), and so do 65280 plain counts followed by
  `55 AA 02 FF` (`OvershootingTagExits`).
- In the GUI version, the interval-change message that a switching marker
  stores in `msgv` is always overwritten by that marker's time-tag message
  before anything is written. It never appears (`NoIntervalNoteWritten`).

## Model

| member | source | states |
|---|---|---|
| Wire.PackU32 | gmcparse5.py:117 | `struct.pack(">I", x)` gives four bytes whose big-endian value is `x` |
| Wire.PackU16 | gmcparse5.py:122 | `struct.pack(">H", x)` gives two bytes whose big-endian value is `x` |
| Wire.SpirCommand | gmcparse5.py:116-128 | the command exists exactly when `struct.pack` accepts the address and `datalength - 1`. It is 12 bytes: `<SPIR`, then the low 24 address bits big-endian, then `datalength - 1` big-endian, then `>>` |
| Wire.ParseSpirCommand | gmcparse5.py:116-122 | reading the command back gives the address modulo 2^24 and `datalength - 1` |
| Wire.GetSpir | gmcparse5.py:86-132 | `getSPIR` (the same code as gmcparse6.py:57-102) writes the SPIR command, asks the link for exactly `datalength` bytes (not `datalength - 1`) and returns what came back. It is defined only where the packing succeeds |
| Wire.SpirWorkaround | gmcparse5.py:108-115 | on a device that sends `(L mod 4096) + 1` bytes for length field `L`, asking for `n - 1` and reading `n` gives exactly `n` bytes of flash from the address, for every `1 <= n <= 4096` |
| Wire.FullReply | gmcparse5.py:108-115 | a SPIR command whose length field is `n - 1` brings back the `n` flash bytes at its address, and `ser.read(n)` keeps all of them |
| Wire.DeviceReply | gmcparse5.py:108-110 | the firmware behaviour the comment describes: for a SPIR command it sends a stretch of the flash from the address on, of `(L mod 4096) + 1` bytes where the flash holds that many and never more than 4096. It sends nothing for anything else |
| Wire.SerialRead | gmcparse5.py:149 | `ser.read(n)` yields the first `min(n, arrived)` bytes of what arrives |
| Wire.LiteralPageLengthFails | gmcparse5.py:108-110 | sending the literal length 4096 would bring back at most one byte |
| Wire.GetDate | gmcparse5.py:74-83 | `getDate` (also gmcparse6.py:48-54) succeeds exactly when bytes 0..5 of the reply, with 2000 added to the year, make a valid date and time, and then returns that one. An empty reply fails |
| Wire.GetCpm | gmcparse6.py:37-45 | `getCPM` is `256 * rec[0] + rec[1]` for a reply of two bytes and 0 for a shorter one, and always below 2^16 |
| Wire.GetCpmPackU16 | gmcparse6.py:37-45 | every 16-bit count the device packs is read back unchanged |
| Calendar.FromBytes | gmcparse5.py:275-278 | `datetime(*dsb)` after `dsb[0] += 2000`. It fails with `IndexError` on no bytes (`dsb[0] += 2000`), with `TypeError` on one or two, and with `ValueError` on an invalid date. On success the date is valid, lies in 2000..2255 and carries the bytes' fields |
| Calendar.FromBytesToBytes | gmcparse5.py:275-278 | every valid date from 2000 to 2255 is decoded from its own six bytes |
| Calendar.ToBytesFromBytes | gmcparse5.py:275-278 | six bytes decode exactly when they name a valid date, and then encode back to themselves |
| Calendar.SecondsWithinYear | gmcparse5.py:328 | a date's seconds lie within its own year, so `year < y` holds exactly when the instant is before the start of `y` |
| History.TailCheckMeaning | gmcparse5.py:171 | the end-of-data test answers whether the buffer ends in three `0xFF`. It raises exactly on a buffer of fewer than three bytes, all `0xFF` |
| History.TailCheck | gmcparse5.py:171 | the end-of-data test never raises on a buffer of three bytes or more, and says "stop" only on a buffer ending in three `0xFF` |
| History.StripErased | gmcparse5.py:180 | `rstrip(chr(0xff))` is a prefix of its input that does not end in `0xFF`, and only `0xFF` bytes are dropped |
| History.StripErasedUnique | gmcparse5.py:180 | the stripped result is the only such prefix |
| History.StripErasedIdempotent | gmcparse5.py:180 | stripping twice is stripping once |
| History.StripErasedPadding | gmcparse5.py:179-180 | erased flash appended to an image disappears when stripped |
| History.BlankFlashIsEmpty | gmcparse5.py:179-180 | flash that was never written strips to an empty image |
| History.GetSpirPage | gmcparse5.py:170 | page `i` is the SPIR request for address `i * 4096` with length field 4095, reading 4096 bytes |
| History.PageLogMeaning | gmcparse5.py:166-170 | the `i`-th exchange of the sweep is the request for page `i` |
| History.Pages | gmcparse5.py:166-170 | the buffer after the `allspir +=` of `k` pages; the buffer after fewer pages is a prefix of it |
| History.ReadPage | gmcparse5.py:170 | one page of the sweep, addressed at `chunk * 4096` |
| History.FetchPage | gmcparse5.py:170 | the buffer after page `chunk` is the concatenation of the replies to pages `0 .. chunk`, and the traffic is the requests for those pages in order |
| History.ReadHist | gmcparse5.py:159-185 | `readHIST` (the same code as gmcparse6.py:127-154) sends 1 to 16 page requests, for pages 0, 1, … in order. Before the last page, every end-of-data test said "go on". If it stopped early, the test at the last page did not say "go on". The result is the stripped concatenation of the replies, or the `IndexError` of the test |
| History.WentOnBeforeErased | gmcparse5.py:171-174 | no buffer before the last page read ended in `FF FF FF`, so the sweep stops at the first one that does |
| Decoder.TickForInterval | gmcparse5.py:253-268 | the interval ids 1, 2 and 3 set the tick to 1, 60 and 3600 seconds. Id 0 sets it to 0 only in verbose mode and otherwise leaves it |
| Decoder.TickFor | gmcparse5.py:259-268 | the new tick is one of the interval lengths 0, 1, 60, 3600 seconds or the old tick. Ids of 4 or more, and id 0 without verbose mode, leave the tick |
| Decoder.Step | gmcparse5.py:247-306 | one record. The cursor moves forward by 1 to 259 bytes, and by at most 255 past the end of the data (only a string tag goes past it). Only a marker changes the interval. A count is stamped with the current time, is below 2^16 and advances the clock by one tick. A string tag leaves the clock alone. A marker's time comes from its bytes in 2000 or later. Every failure starts at a `55` byte, and every look-ahead failure lies past the end |
| Decoder.Run | gmcparse5.py:244-327 | the pass ends normally only with the cursor at or past the end of the data |
| Decoder.Decode | gmcparse5.py:234-327 | `analyse` starts at `dp = 0`, `idcpm = 2`, a one-minute tick and `datenow` 1950-01-22 11:12:13. The first record, if it is a count, is stamped with that time (later counts before a marker follow `Decoder.SampleTimes`), empty data is a finished pass from that state, and a pass delivers at most 65537 records |
| Decoder.RecordsBound | gmcparse5.py:244-327 | a pass from cursor `dp` at or below 65536 delivers at most `65537 - dp` records, because each record starts at a new cursor position |
| Decoder.Tail | gmcparse5.py:310-324 | the tail of the loop moves the cursor by one and leaves the interval. The time stamp moves by exactly one tick when a count was read, and otherwise stays |
| Decoder.MarkerStep | gmcparse5.py:249-283 | a closed marker with a valid date sets the clock to exactly its six date bytes, whatever it was before. It gives no count and moves the cursor by 12. Its interval id switches exactly when it is below 4 and different |
| Decoder.BadDateStep | gmcparse5.py:253-278 | a closed marker whose date is invalid raises `ValueError`, after the interval switch |
| Decoder.WideCountStep | gmcparse5.py:289-295 | `55 AA 01 H L` is the count `256 * H + L` at the current time. The clock then ticks and the cursor moves by 5 |
| Decoder.IdTagStep | gmcparse5.py:298-306 | `55 AA 02 L …` is a tag of up to `L` bytes after the length byte. The cursor moves by `4 + L` and the clock stands still |
| Decoder.RawStep | gmcparse5.py:247-248 | any byte where no tag starts is a raw count of 0 to 255. The clock ticks and the cursor moves by 1 |
| Decoder.UnclosedMarkerStep | gmcparse5.py:252-286 | `55 AA 00` without a closing `55 AA` is the raw count 0x55, marked for the warning. This includes a byte 9 that is not `55` as the last byte of the buffer, where the short-circuit `and` reads no further |
| Decoder.LookAheadFails | gmcparse5.py:248 | with the cursor on a `55` in the last position, or on `55 AA` in the last two positions, the look-ahead raises `IndexError` at the end of the buffer |
| Decoder.AbortedOnlyNearCeiling | gmcparse5.py:324-327 | the `exit(1)` needs a buffer of more than 65281 bytes. Within 65536 bytes it comes only after a string tag, which is still delivered |
| Decoder.PlainCountsRun | gmcparse5.py:244-248 | bytes other than `0x55` are read as one count each: the pass ends as the pass from the cursor after them does, with the clock one tick on per byte |
| Decoder.LongImageExits | gmcparse5.py:324-327 | an image of 65537 plain counts exits at the ceiling |
| Decoder.OvershootingTagExits | gmcparse5.py:298-306 | an image of at most 65536 bytes exits after a string tag near its end whose length reaches past the ceiling |
| Decoder.ReachableBefore2000 | gmcparse5.py:239 | on every state the pass reaches, `datenow.year < 2000` holds exactly while the clock still runs from its 1950 start value |
| Decoder.EndsBefore2000 | gmcparse5.py:239-329 | a finished pass ends before 2000 exactly when it started before 2000 and met no time marker |
| Decoder.WarningIffNoMarker | gmcparse5.py:328-329 | the no-date warning of a finished pass is due exactly when no time marker was decoded |
| Decoder.SampleTimes | gmcparse5.py:310-322 | until the next marker, the count after `n` earlier counts is stamped `n` ticks after the starting time stamp |
| Decoder.SamplesNonDecreasing | gmcparse5.py:310-322 | between markers, the time stamps of the counts never decrease |
| Decoder.RunPrefix | gmcparse5.py:244-327 | every record of a pass is the first of the pass from a state reached after the records before it |
| Decoder.DecodedPrefix | gmcparse5.py:244-327 | for each `k` below the record count, the decode of the whole image continues after its first `k` records as the pass from a state it reaches |
| Decoder.StampsNonDecreasingInImage | gmcparse5.py:310-322 | in the decode of a whole image, of two samples with no marker from the first to the second, the later is stamped no earlier |
| Decoder.StampsAfterPrefix | gmcparse5.py:310-322 | for records that are some prefix followed by the pass from a state, two samples with no time marker between them have the same base, and the later one's stamp is no earlier |
| Decoder.MarkerMayGoBack | gmcparse5.py:278 | a later marker can set the clock back, so time stamps are not ordered across markers |
| Decoder.MarkerThenCount | gmcparse5.py:222-225 | the marker from the format description, followed by a count byte, decodes to that marker and one count at its time |
| Decoder.WideCountExample | gmcparse5.py:227-228 | `55 AA 01 00 2A` is the count 42 |
| Decoder.IdTagExample | gmcparse5.py:230-231 | `55 AA 02 03 41 42 43` is the tag "ABC" |
| Decoder.EmptyImage | gmcparse5.py:239-244 | an empty image decodes to nothing, and the warning is due |
| Decoder.TruncatedMarkerStep | gmcparse5.py:249-252 | when the cursor reaches a `55 AA 00` among the last nine bytes, the record raises `IndexError` at `dp + 9` |
| Decoder.TruncatedMarker | gmcparse5.py:244-252 | the buffer `07 55 AA 00` delivers the count 7 and then raises at index 10. A final `55 AA 00` is not always reached this way: in `55 AA 01 55 AA 00` the two-byte count consumes the second `55 AA` (`Decoder.WideCountHidesMarker`) |
| Decoder.WideCountHidesMarker | gmcparse5.py:288-295 | `55 AA 01 55 AA 00` decodes to the count 0x55AA and the raw count 0, one tick apart, and finishes normally |
| Sink.SampleLinesMeaning | gmcparse5.py:319-320 | the report file has one count line per count, and nothing else |
| GmcParse5.TestTag | gmcparse5.py:246-307 | the tag test of the loop follows `Step`. A raise is the failure of `Step`. Otherwise it leaves the count (`ccount >= 0` exactly for a count) and what was printed, which is `Notes` of the record |
| GmcParse5.Notes | gmcparse5.py:257-303 | what one record prints before its count line: the interval notes and time tag of a marker, the missing-endmarker note, the string tag. Nothing at all is printed without `-v`, at most three lines for a marker and at most one for any other record |
| GmcParse5.NotesCounts | gmcparse5.py:257-303 | none of those notes is a count line |
| GmcParse5.ConsoleEnd | gmcparse5.py:257-329 | what follows the last record: the no-date warning, the ceiling message, or the interval notes a marker printed before raising. It holds no count line, and apart from those notes at most one end line |
| GmcParse5.SwitchInterval | gmcparse5.py:253-268 | an interval byte below 4 that differs from the current id replaces it. On a switch the tick becomes that interval's length (or stays, for id 0 without `-v`), and the notes are the verbose announcements |
| GmcParse5.TestMarker | gmcparse5.py:249-285 | the `55 AA 00` branch of the tag test follows `Step`: a time marker, a raw count when no closing `55 AA` follows, or the `IndexError`/`ValueError` `Step` fails with |
| GmcParse5.TestIdString | gmcparse5.py:298-306 | the `55 AA 02` branch of the tag test follows `Step`: the `IndexError` on a missing length byte, otherwise a string tag (no count) whose text is cut at the end of the data, printed in verbose mode, with the cursor moved past the length byte by the length |
| GmcParse5.NextRecord | gmcparse5.py:244-307 | the tag test seen from the whole pass. A raise ends the pass there. Otherwise the pass goes on from the loop's tail, or ends at the ceiling |
| GmcParse5.LoopTail | gmcparse5.py:310-324 | the tail of the loop body is `Tail`: a count is printed and filed as its one count line at the current time stamp, and nothing is printed otherwise |
| GmcParse5.Turn | gmcparse5.py:246-327 | one turn of the loop moves the cursor forward. It adds the record's screen lines and count line, and it ends `analyse` exactly where the pass ends |
| GmcParse5.Analyse | gmcparse5.py:214-331 | `analyse` prints `Console(Decode(data))`, writes the samples' count lines to the report file when one is given, and completes, exits or raises exactly as the pass ends |
| GmcParse5.RecordCounts | gmcparse5.py:256-320 | a record shows its own count line and no other |
| GmcParse5.ConsoleRecordsCounts | gmcparse5.py:310-320 | the count lines on the screen are those of the report file |
| GmcParse5.ScreenCountsAreFile | gmcparse5.py:310-329 | the same holds for the whole screen output, end-of-run lines included |
| GmcParse5.QuietConsole | gmcparse5.py:256-303 | without `-v`, the records show their count lines and nothing else |
| GmcParse5.ConsoleEndLines | gmcparse5.py:325-329 | a finished run prints the no-date warning exactly when no marker was met. The ceiling message appears exactly when the program exits there |
| GmcParse6.TestTag | gmcparse6.py:193-254 | the GUI tag test follows `Step`. After a marker or a string tag in verbose mode, `msgv` is that record's message |
| GmcParse6.SwitchInterval | gmcparse6.py:200-215 | as in the stand-alone tool; a verbose switch leaves its announcement in `msgv`, otherwise `msgv` is unchanged |
| GmcParse6.TestMarker | gmcparse6.py:196-234 | the `55 AA 00` branch of the GUI tag test follows `Step`. After a marker in verbose mode, `msgv` is the time-tag message |
| GmcParse6.NextRecord | gmcparse6.py:191-254 | the GUI tag test seen from the whole pass |
| GmcParse6.Turn | gmcparse6.py:194-285 | one turn of the GUI loop adds `FormRecord` of its record to the form and the file, and ends `analyse` exactly where the pass ends |
| GmcParse6.Analyse | gmcparse6.py:157-292 | `analyse(form, data, fn, verbose)` writes `Form(Decode(data))` to the form and the same lines, without `*** done ***`, to the file. It returns the no-date message or the empty string, or exits, or raises, exactly as the pass ends |
| GmcParse6.VerboseFormLines | gmcparse6.py:259-281 | in verbose mode every record writes exactly one line, in order: its count line, or its message |
| GmcParse6.FormRecord | gmcparse6.py:259-281 | one record writes at most one line to the form and the file: its count line, or in verbose mode its message. The line is a count line exactly for a count |
| GmcParse6.OutcomeOf | gmcparse6.py:282-292 | `analyse` returns exactly when the loop runs out, and exits exactly at the ceiling. It returns the no-date message or the empty string |
| GmcParse6.NoIntervalNoteWritten | gmcparse6.py:204-227 | the interval-change message is never written, because the time tag overwrites it |
| GmcParse6.QuietForm | gmcparse6.py:275-281 | without verbose mode only the count lines are written |
| GmcParse6.FormCounts | gmcparse6.py:259-274 | each count is written exactly once, in stream order, with its time stamp |
| GmcParse6.DoneIsLast | gmcparse6.py:286-290 | `*** done ***` is written once, as the last line, exactly when the loop runs to the end of the data |
| GmcParse6.ReturnsNoDateIffNoMarker | gmcparse6.py:286-292 | a finished run returns "No date/time tag found. Valid data?" exactly when no time marker was decoded, and the empty string otherwise |

## Left out

- Error paths of `serialCOMM` (gmcparse5.py:135-157, gmcparse6.py:105-124). Its `ser.close()` and `sys.exit(1)` on a port error are not modelled. A `Link` always answers; a short reply is just a shorter byte sequence.
- `getVER`: reading the version string is plain I/O and takes no part in the log path.
- `time.sleep(0.5)` between pages only affects timing.
- The `debug` and `verbose` prints of `getSPIR` and `readHIST` only report progress. In the GUI version, `readHIST` turns them off anyway.
- The command line (`docopt`, `main`, gmcparse5.py:341-410), `stime`, and reading and writing image files as binary.
- The screen line limit `fullout`/`limitlines` (gmcparse5.py:317). The console is modelled as if every line were shown, which is what `-f` does.
- The standard output of the GUI version (`print sp`, `print msgv`, "Time interval off", the missing-endmarker note, `print msge`). Only the form, the file and the returned message are modelled.
- Text formatting (`strftime`, `format`). Lines are structured values, each documented with its wording in `sink.dfy`. The GUI `getDate` returns the formatted text; `Wire.GetDate` returns the date it formats.
- The "Undefined history interval" branch (gmcparse5.py:269-273) cannot be reached, because the id is tested to be below 4 first. The model has no such case.
- `datetime` overflow past year 9999 on `datenow += tick`. The clock is an unbounded seconds offset. Markers stay within 2000 to 2255, and a pass delivers at most 65537 records (`Decoder.Decode`), so at most 65537 ticks of at most an hour are added and the overflow cannot occur.
- Opening or closing the report file, and any failure to do so. The report file after `exit(1)` or an exception is modelled as the lines written until then.
- The GUI module `gwcmain.py` is not part of this model.
