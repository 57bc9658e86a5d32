/**
 * `analyse(data, fn)` of the stand-alone tool: the decoding loop, printing
 * to the screen and writing the count lines to the report file `fn`.
 * `verbose` and `fullout` are module globals set from the command line;
 * `verbose` is a parameter here, and `hasFile` says whether `fn` was given.
 */
module GmcParse5 {
  import opened Wrappers
  import opened Bytes
  import Calendar
  import opened Decoder
  import opened Sink

  /** The interval notes a switching marker prints, before its date is read. */
  function IntervalNotes(idcpm: nat, changed: bool, verbose: bool): seq<Line>
  {
    if verbose && changed then [IntervalChanged(idcpm)] + (if idcpm == 0 then [IntervalOff] else []) else []
  }

  /** What the screen shows for one record before its count line, if any. */
  function Notes(r: Record, verbose: bool): (lines: seq<Line>)
    ensures !verbose ==> lines == []
    ensures |lines| <= (if r.TimeMark? then 3 else 1)
  {
    match r
    case Sample(_, _, unclosed) => if verbose && unclosed then [NoEndMarker] else []
    case TimeMark(at, idcpm, changed) => IntervalNotes(idcpm, changed, verbose) + (if verbose then [TimeTag(at, idcpm)] else [])
    case IdTag(text) => if verbose then [IdTagFound(text)] else []
  }

  /** What the screen shows for one record. */
  function ConsoleRecord(r: Record, verbose: bool): seq<Line>
  {
    Notes(r, verbose) + SampleLine(r)
  }

  function ConsoleRecords(recs: seq<Record>, verbose: bool): seq<Line>
  {
    if recs == [] then []
    else ConsoleRecords(recs[..|recs| - 1], verbose) + ConsoleRecord(recs[|recs| - 1], verbose)
  }

  /** What the screen shows after the last record: the warning, the ceiling message, or the notes of a marker that raised. */
  function ConsoleEnd(e: End, verbose: bool): (lines: seq<Line>)
    ensures forall i :: 0 <= i < |lines| ==> !lines[i].CountLine?
    ensures !verbose || !e.Failed? ==> lines == [] || (|lines| == 1 && EndLine(lines[0]))
  {
    match e
    case Finished(st) => if Before2000(st.datenow) then [NoDateWarning] else []
    case Aborted => [InvalidFile]
    case Failed(err) => if err.BadDate? then IntervalNotes(err.idcpm, err.changed, verbose) else []
  }

  /** Everything printed to the screen, with the screen's line limit lifted (`-f`). */
  function Console(t: Trace, verbose: bool): seq<Line>
  {
    ConsoleRecords(t.records, verbose) + ConsoleEnd(t.end, verbose)
  }

  /** How `analyse` ends: it returns, the program exits, or an exception escapes. */
  datatype Ending = Completed | Exited | Raised(error: DecodeError)

  function EndingOf(e: End): Ending
  {
    match e
    case Finished(_) => Completed
    case Aborted => Exited
    case Failed(err) => Raised(err)
  }

  /**
   * The interval byte of a closed marker: an id below 4 that differs from
   * the current one becomes the interval, sets the tick, and is announced.
   */
  method SwitchInterval(id: byte, idcpm0: nat, tick0: nat, verbose: bool) returns (idcpm: nat, tick: nat, changed: bool, notes: seq<Line>)
    ensures changed == Switches(id, idcpm0)
    ensures idcpm == (if changed then id as nat else idcpm0)
    ensures tick == (if changed then TickFor(id, verbose, tick0) else tick0)
    ensures notes == IntervalNotes(idcpm, changed, verbose)
  {
    idcpm, tick, changed, notes := idcpm0, tick0, false, [];
    if id < 4 {
      if id != idcpm {
        idcpm := id;
        changed := true;
        if verbose {
          notes := notes + [IntervalChanged(idcpm)];
        }
        if idcpm == 2 {
          tick := 60;
        } else if idcpm == 1 {
          tick := 1;
        } else if idcpm == 3 {
          tick := 3600;
        } else if idcpm == 0 {
          if verbose {
            notes := notes + [IntervalOff];
            tick := 0;
          }
        }
      }
    }
  }

  /**
   * The tag test on `55 AA 02`: the length byte, then the string, cut
   * short at the end of the data as a slice is; the cursor is left on
   * the string's last byte, wherever that falls.
   */
  method TestIdString(data: seq<byte>, verbose: bool, st: State)
    returns (ccount: int, after: State, notes: seq<Line>, raised: Option<DecodeError>, ghost rec: Record)
    requires st.dp + 2 < |data| && data[st.dp] == TAG_1 && data[st.dp + 1] == TAG_2 && data[st.dp + 2] == ID_STRING
    ensures raised.Some? ==> Step(data, verbose, st) == Failure(raised.value) && notes == ConsoleEnd(Failed(raised.value), verbose)
    ensures raised.None? ==> Step(data, verbose, st) == Success(Decoded(rec, Tail(after, ccount)))
    ensures raised.None? ==> (ccount >= 0 <==> rec.Sample?) && (rec.Sample? ==> rec.at == after.datenow && rec.value == ccount)
    ensures raised.None? ==> notes == Notes(rec, verbose)
    ensures raised.None? ==> after.dp >= st.dp
  {
    var dp := st.dp;
    notes := [];
    raised := None;
    after := st;
    rec := IdTag([]);
    ccount := -1;
    if dp + 3 >= |data| {
      raised := Some(IndexOutOfRange(dp + 3));
      return;
    }
    var strgl := data[dp + 3];
    var strg := data[dp + 4 .. Min(dp + 4 + strgl, |data|)];
    if verbose {
      notes := notes + [IdTagFound(strg)];
    }
    rec := IdTag(strg);
    dp := dp + 3 + strgl;
    after := State(dp, st.idcpm, st.tick, st.datenow);
  }

  /**
   * The tag test on `55 AA 00`: a time marker when a closing `55 AA`
   * follows the date bytes, otherwise the first byte as a raw count.
   */
  method TestMarker(data: seq<byte>, verbose: bool, st: State)
    returns (ccount: int, after: State, notes: seq<Line>, raised: Option<DecodeError>, ghost rec: Record)
    requires st.dp + 2 < |data| && data[st.dp] == TAG_1 && data[st.dp + 1] == TAG_2 && data[st.dp + 2] == TIME_MARKER
    ensures raised.Some? ==> Step(data, verbose, st) == Failure(raised.value) && notes == ConsoleEnd(Failed(raised.value), verbose)
    ensures raised.None? ==> Step(data, verbose, st) == Success(Decoded(rec, Tail(after, ccount)))
    ensures raised.None? ==> (ccount >= 0 <==> rec.Sample?) && (rec.Sample? ==> rec.at == after.datenow && rec.value == ccount)
    ensures raised.None? ==> notes == Notes(rec, verbose)
    ensures raised.None? ==> after.dp >= st.dp
  {
    var dp := st.dp;
    var idcpm := st.idcpm;
    var tick := st.tick;
    var datenow := st.datenow;
    notes := [];
    raised := None;
    after := st;
    ghost var unclosed := false;
    rec := IdTag([]);
    ccount := data[dp];
    if dp + 9 >= |data| {
      raised := Some(IndexOutOfRange(dp + 9));
      return;
    }
    var closed := data[dp + 9] == TAG_1;
    if closed {
      if dp + 10 >= |data| {
        raised := Some(IndexOutOfRange(dp + 10));
        return;
      }
      closed := data[dp + 10] == TAG_2;
    }
    if closed {
      if dp + 11 >= |data| {
        raised := Some(IndexOutOfRange(dp + 11));
        return;
      }
      var changed;
      idcpm, tick, changed, notes := SwitchInterval(data[dp + 11], idcpm, tick, verbose);
      var stamp := Calendar.FromBytes(data[dp + 3 .. dp + 9]);
      if stamp.Failure? {
        raised := Some(BadDate(dp + 3, stamp.error, idcpm, changed));
        return;
      }
      datenow := Calendar.Clock(stamp.value, 0);
      if verbose {
        notes := notes + [TimeTag(datenow, idcpm)];
      }
      rec := TimeMark(datenow, idcpm, changed);
      ccount := -1;
      dp := dp + 11;
    } else {
      if verbose {
        notes := notes + [NoEndMarker];
      }
      unclosed := true;
    }
    if ccount >= 0 {
      rec := Sample(datenow, ccount, unclosed);
    }
    after := State(dp, idcpm, tick, datenow);
  }

  /**
   * The tag test at the top of the loop: looks for a tag at `st.dp`,
   * leaves in `ccount` the count the record holds (or -1 for a marker or a
   * string tag), in `after` the variables before the loop's tail, and in
   * `notes` what it printed; `raised` is the exception it raised, if any.
   */
  method TestTag(data: seq<byte>, verbose: bool, st: State)
    returns (ccount: int, after: State, notes: seq<Line>, raised: Option<DecodeError>, ghost rec: Record)
    requires st.dp < |data|
    ensures raised.Some? ==> Step(data, verbose, st) == Failure(raised.value) && notes == ConsoleEnd(Failed(raised.value), verbose)
    ensures raised.None? ==> Step(data, verbose, st) == Success(Decoded(rec, Tail(after, ccount)))
    ensures raised.None? ==> (ccount >= 0 <==> rec.Sample?) && (rec.Sample? ==> rec.at == after.datenow && rec.value == ccount)
    ensures raised.None? ==> notes == Notes(rec, verbose)
    ensures raised.None? ==> after.dp >= st.dp
  {
    var dp := st.dp;
    var idcpm := st.idcpm;
    var tick := st.tick;
    var datenow := st.datenow;
    notes := [];
    raised := None;
    after := st;
    ghost var unclosed := false;
    rec := IdTag([]);
    ccount := data[dp];
    if data[dp] == TAG_1 {
      if dp + 1 >= |data| {
        raised := Some(IndexOutOfRange(dp + 1));
        return;
      }
      if data[dp + 1] == TAG_2 {
        if dp + 2 >= |data| {
          raised := Some(IndexOutOfRange(dp + 2));
          return;
        }
        if data[dp + 2] == TIME_MARKER {
          ccount, after, notes, raised, rec := TestMarker(data, verbose, st);
          return;
        } else if data[dp + 2] == WIDE_COUNT {
          if dp + 3 >= |data| {
            raised := Some(IndexOutOfRange(dp + 3));
            return;
          }
          if dp + 4 >= |data| {
            raised := Some(IndexOutOfRange(dp + 4));
            return;
          }
          ccount := data[dp + 3] as int * 0x100 + data[dp + 4];
          dp := dp + 4;
        } else if data[dp + 2] == ID_STRING {
          ccount, after, notes, raised, rec := TestIdString(data, verbose, st);
          return;
        }
      }
    }
    if ccount >= 0 {
      rec := Sample(datenow, ccount, unclosed);
    }
    after := State(dp, idcpm, tick, datenow);
  }

  /** The tag test seen from the whole decoding pass: what it raised ends the pass, and otherwise the pass goes on from the loop's tail. */
  method NextRecord(data: seq<byte>, verbose: bool, st: State, ghost recs: seq<Record>, ghost whole: Trace)
    returns (ccount: int, after: State, notes: seq<Line>, raised: Option<DecodeError>, ghost rec: Record)
    requires st.dp < |data| && DecodedUpTo(data, verbose, recs, st, whole)
    ensures raised.Some? ==> whole == Trace(recs, Failed(raised.value)) && notes == ConsoleEnd(Failed(raised.value), verbose)
    ensures raised.None? ==> var nxt := Tail(after, ccount);
      && (nxt.dp <= MAX_CURSOR ==> DecodedUpTo(data, verbose, recs + [rec], nxt, whole))
      && (nxt.dp > MAX_CURSOR ==> whole == Trace(recs + [rec], Aborted))
    ensures raised.None? ==> (ccount >= 0 <==> rec.Sample?) && (rec.Sample? ==> rec.at == after.datenow && rec.value == ccount)
    ensures raised.None? ==> notes == Notes(rec, verbose)
    ensures raised.None? ==> after.dp >= st.dp
  {
    ccount, after, notes, raised, rec := TestTag(data, verbose, st);
    if raised.Some? {
      RunFails(data, verbose, recs, st, whole, raised.value);
    } else {
      RunAdvances(data, verbose, recs, st, whole, Decoded(rec, Tail(after, ccount)));
    }
  }

  lemma Extend(recs: seq<Record>, rec: Record, verbose: bool)
    ensures ConsoleRecords(recs + [rec], verbose) == ConsoleRecords(recs, verbose) + Notes(rec, verbose) + SampleLine(rec)
    ensures SampleLines(recs + [rec]) == SampleLines(recs) + SampleLine(rec)
  {
    assert (recs + [rec])[..|recs|] == recs;
  }

  /**
   * The tail of the loop body: a count (`ccount >= 0`) is printed and
   * filed as one line and steps the clock by a tick; then `dp += 1`.
   */
  method LoopTail(after: State, ccount: int) returns (next: State, line: seq<Line>)
    ensures next == Tail(after, ccount)
    ensures line == (if ccount >= 0 then [CountLine(after.datenow, ccount)] else [])
  {
    var dp, idcpm, tick, datenow := after.dp, after.idcpm, after.tick, after.datenow;
    line := [];
    if ccount >= 0 {
      line := [CountLine(datenow, ccount)];
      datenow := datenow.Plus(tick);
    }
    dp := dp + 1;
    next := State(dp, idcpm, tick, datenow);
  }

  /**
   * One turn of the loop of `analyse` from `st`: the tag test, then the
   * tail that prints and files a count and steps the clock, `dp += 1` and
   * the ceiling test. `printed` and `filed` are what this turn adds to the
   * screen and to the report file; `stop` says how `analyse` ends if it
   * ends here.
   */
  method Turn(data: seq<byte>, verbose: bool, st: State, ghost recs: seq<Record>, ghost whole: Trace)
    returns (next: State, printed: seq<Line>, filed: seq<Line>, stop: Option<Ending>, ghost done: seq<Record>)
    requires st.dp < |data| && DecodedUpTo(data, verbose, recs, st, whole)
    ensures stop.None? ==> st.dp < next.dp && DecodedUpTo(data, verbose, done, next, whole)
    ensures stop.Some? ==> whole.records == done && stop.value == EndingOf(whole.end)
    ensures stop.Some? ==> ConsoleRecords(recs, verbose) + printed == Console(whole, verbose)
    ensures stop.None? ==> ConsoleRecords(done, verbose) == ConsoleRecords(recs, verbose) + printed
    ensures SampleLines(done) == SampleLines(recs) + filed
  {
    var ccount, after, notes, raised, rec := NextRecord(data, verbose, st, recs, whole);
    next := st;
    printed := notes;
    filed := [];
    if raised.Some? {
      stop := Some(Raised(raised.value));
      done := recs;
      assert recs + [] == recs;
      RaisedScreen(recs, whole, raised.value, verbose);
      return;
    }
    var line;
    next, line := LoopTail(after, ccount);
    TailLine(rec, ccount, after);
    printed := printed + line;
    filed := line;
    assert printed == ConsoleRecord(rec, verbose);
    Extend(recs, rec, verbose);
    done := recs + [rec];
    stop := None;
    if next.dp > MAX_CURSOR {
      ExitScreen(recs, rec, whole, verbose);
      printed := printed + [InvalidFile];
      stop := Some(Exited);
    }
  }

  /** The count line the tail files is the record's own. */
  lemma TailLine(rec: Record, ccount: int, after: State)
    requires (ccount >= 0 <==> rec.Sample?) && (rec.Sample? ==> rec.at == after.datenow && rec.value == ccount)
    ensures SampleLine(rec) == (if ccount >= 0 then [CountLine(after.datenow, ccount)] else [])
  {
  }

  /** After a record that raises, the screen ends with what `ConsoleEnd` says of the error. */
  lemma RaisedScreen(recs: seq<Record>, whole: Trace, e: DecodeError, verbose: bool)
    requires whole == Trace(recs, Failed(e))
    ensures ConsoleRecords(recs, verbose) + ConsoleEnd(Failed(e), verbose) == Console(whole, verbose)
  {
  }

  /** At the ceiling, the last record's lines are followed by the ceiling message. */
  lemma ExitScreen(recs: seq<Record>, rec: Record, whole: Trace, verbose: bool)
    requires whole == Trace(recs + [rec], Aborted)
    ensures ConsoleRecords(recs, verbose) + (ConsoleRecord(rec, verbose) + [InvalidFile]) == Console(whole, verbose)
  {
    Extend(recs, rec, verbose);
    AppendAssociative(ConsoleRecords(recs, verbose), ConsoleRecord(rec, verbose), [InvalidFile]);
  }

  /**
   * The loop of `analyse`. Its screen output, its report file and the way
   * it ends are those of the decoding pass `Decode(data, verbose)`.
   */
  method Analyse(data: seq<byte>, verbose: bool, hasFile: bool) returns (console: seq<Line>, file: seq<Line>, ending: Ending)
    ensures var t := Decode(data, verbose);
      && console == Console(t, verbose)
      && file == (if hasFile then SampleLines(t.records) else [])
      && ending == EndingOf(t.end)
  {
    var st := Start;
    console := [];
    file := [];
    ghost var recs: seq<Record> := [];
    ghost var whole := Decode(data, verbose);
    RunStarts(data, verbose);
    while st.dp < |data|
      invariant DecodedUpTo(data, verbose, recs, st, whole)
      invariant console == ConsoleRecords(recs, verbose)
      invariant file == (if hasFile then SampleLines(recs) else [])
      decreases |data| - st.dp
    {
      var printed, filed, stop;
      st, printed, filed, stop, recs := Turn(data, verbose, st, recs, whole);
      console := console + printed;
      if hasFile {
        file := file + filed;
      }
      if stop.Some? {
        ending := stop.value;
        return;
      }
    }
    RunFinishes(data, verbose, recs, st, whole);
    if Before2000(st.datenow) {
      console := console + [NoDateWarning];
    }
    ending := Completed;
  }

  /** The lines only the end of a run prints. */
  predicate EndLine(l: Line)
  {
    l.NoDateWarning? || l.InvalidFile? || l.Done?
  }

  /** The count lines among what the records print are the samples' count lines. */
  lemma {:induction false} ConsoleRecordsCounts(recs: seq<Record>, verbose: bool)
    ensures Counts(ConsoleRecords(recs, verbose)) == SampleLines(recs)
  {
    if recs != [] {
      var init, r := recs[..|recs| - 1], recs[|recs| - 1];
      ConsoleRecordsCounts(init, verbose);
      CountsAppend(ConsoleRecords(init, verbose), ConsoleRecord(r, verbose));
      RecordCounts(r, verbose);
    }
  }

  lemma RecordCounts(r: Record, verbose: bool)
    ensures Counts(ConsoleRecord(r, verbose)) == SampleLine(r)
  {
    CountsAppend(Notes(r, verbose), SampleLine(r));
    NotesCounts(r, verbose);
    SampleLineCounts(r);
  }

  lemma NotesCounts(r: Record, verbose: bool)
    ensures Counts(Notes(r, verbose)) == []
  {
    match r
    case Sample(_, _, _) =>
      NoCounts(Notes(r, verbose));
    case TimeMark(at, idcpm, changed) =>
      var ns := IntervalNotes(idcpm, changed, verbose) + (if verbose then [TimeTag(at, idcpm)] else []);
      assert forall l :: l in ns ==> !l.CountLine?;
      NoCounts(ns);
    case IdTag(_) =>
      NoCounts(Notes(r, verbose));
  }

  lemma SampleLineCounts(r: Record)
    ensures Counts(SampleLine(r)) == SampleLine(r)
  {
    if r.Sample? {
      assert SampleLine(r)[..0] == [];
    }
  }

  /** The records never print an end-of-run line. */
  lemma {:induction false} ConsoleRecordsNoEnd(recs: seq<Record>, verbose: bool)
    ensures forall l :: l in ConsoleRecords(recs, verbose) ==> !EndLine(l)
  {
    if recs != [] {
      var init, r := recs[..|recs| - 1], recs[|recs| - 1];
      ConsoleRecordsNoEnd(init, verbose);
      RecordNoEnd(r, verbose);
      assert ConsoleRecords(recs, verbose) == ConsoleRecords(init, verbose) + ConsoleRecord(r, verbose);
    }
  }

  lemma RecordNoEnd(r: Record, verbose: bool)
    ensures forall l :: l in ConsoleRecord(r, verbose) ==> !EndLine(l)
  {
    assert ConsoleRecord(r, verbose) == Notes(r, verbose) + SampleLine(r);
  }

  /** The lines after the last record hold no count line. */
  lemma EndCounts(e: End, verbose: bool)
    ensures Counts(ConsoleEnd(e, verbose)) == []
  {
    match e
    case Finished(_) =>
      NoCounts(ConsoleEnd(e, verbose));
    case Aborted =>
      NoCounts([InvalidFile]);
    case Failed(err) =>
      NoCounts(ConsoleEnd(e, verbose));
  }

  /** The count lines on the screen are exactly those of the report file, whatever else is shown. */
  lemma ScreenCountsAreFile(data: seq<byte>, verbose: bool)
    ensures var t := Decode(data, verbose);
      Counts(Console(t, verbose)) == SampleLines(t.records)
  {
    var t := Decode(data, verbose);
    ConsoleRecordsCounts(t.records, verbose);
    CountsAppend(ConsoleRecords(t.records, verbose), ConsoleEnd(t.end, verbose));
    EndCounts(t.end, verbose);
  }

  /** Without `-v` the screen shows the count lines and nothing else, until the end of the run. */
  lemma {:induction false} QuietConsole(recs: seq<Record>)
    ensures ConsoleRecords(recs, false) == SampleLines(recs)
  {
    if recs != [] {
      QuietConsole(recs[..|recs| - 1]);
    }
  }

  /**
   * A finished run warns exactly when it met no time marker, and the
   * ceiling message appears exactly when the program exits there.
   */
  lemma ConsoleEndLines(data: seq<byte>, verbose: bool)
    ensures var t := Decode(data, verbose);
      t.end.Finished? ==> (NoDateWarning in Console(t, verbose) <==> NoMarker(t.records))
    ensures var t := Decode(data, verbose);
      InvalidFile in Console(t, verbose) <==> t.end.Aborted?
  {
    var t := Decode(data, verbose);
    ConsoleRecordsNoEnd(t.records, verbose);
    WarningIffNoMarker(data, verbose);
    var recs, e := ConsoleRecords(t.records, verbose), ConsoleEnd(t.end, verbose);
    assert Console(t, verbose) == recs + e;
    assert NoDateWarning !in recs && InvalidFile !in recs;
  }
}
