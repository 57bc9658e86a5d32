/**
 * `analyse(form, data, fn, verbose)` of the GUI version: the same decoding
 * loop, writing each count line, and in verbose mode the message of each
 * marker and string tag, to the form and to the report file `fn`; it
 * ends with `*** done ***` on the form and returns its error message.
 */
module GmcParse6 {
  import opened Wrappers
  import opened Bytes
  import Calendar
  import opened Decoder
  import opened Sink

  /** The message returned when no time marker moved the clock past 1950. */
  const NO_DATE: string := "No date/time tag found. Valid data?"

  /** The `msgv` a marker or a string tag leaves: the time tag line, or the tag's text. */
  function Message(r: Record): Option<Line>
  {
    match r
    case Sample(_, _, _) => None
    case TimeMark(at, idcpm, _) => Some(TimeTag(at, idcpm))
    case IdTag(text) => Some(IdTagFound(text))
  }

  /** What one record writes to the form and to the file. */
  function FormRecord(r: Record, verbose: bool): (lines: seq<Line>)
    ensures |lines| <= 1 && (verbose || r.Sample? ==> |lines| == 1)
    ensures forall l :: l in lines ==> (l.CountLine? <==> r.Sample?)
  {
    if r.Sample? then SampleLine(r)
    else if verbose then [Message(r).value]
    else []
  }

  function FormRecords(recs: seq<Record>, verbose: bool): seq<Line>
  {
    if recs == [] then []
    else FormRecords(recs[..|recs| - 1], verbose) + FormRecord(recs[|recs| - 1], verbose)
  }

  /** Everything written to the form: the records, then `*** done ***` if the loop ran to the end of the data. */
  function Form(t: Trace, verbose: bool): seq<Line>
  {
    FormRecords(t.records, verbose) + (if t.end.Finished? then [Done] else [])
  }

  /** How `analyse` ends: it returns its message, the program exits, or an exception escapes. */
  datatype Outcome = Returned(message: string) | Exited | Raised(error: DecodeError)

  function OutcomeOf(e: End): (o: Outcome)
    ensures o.Returned? <==> e.Finished?
    ensures o.Exited? <==> e.Aborted?
    ensures o.Returned? ==> o.message == NO_DATE || o.message == ""
  {
    match e
    case Finished(st) => Returned(if Before2000(st.datenow) then NO_DATE else "")
    case Aborted => Exited
    case Failed(err) => Raised(err)
  }

  /**
   * The interval byte of a closed marker, as `GmcParse5.SwitchInterval`;
   * the switch is announced in the message variable, not printed.
   */
  method SwitchInterval(id: byte, idcpm0: nat, tick0: nat, verbose: bool, msgvIn: Option<Line>)
    returns (idcpm: nat, tick: nat, changed: bool, msgv: Option<Line>)
    ensures changed == Switches(id, idcpm0)
    ensures idcpm == (if changed then id as nat else idcpm0)
    ensures tick == (if changed then TickFor(id, verbose, tick0) else tick0)
    ensures msgv == (if changed && verbose then Some(IntervalChanged(idcpm)) else msgvIn)
  {
    idcpm, tick, changed, msgv := idcpm0, tick0, false, msgvIn;
    if id < 4 {
      if id != idcpm {
        idcpm := id;
        changed := true;
        if verbose {
          msgv := Some(IntervalChanged(idcpm));
        }
        if idcpm == 2 {
          tick := 60;
        } else if idcpm == 1 {
          tick := 1;
        } else if idcpm == 3 {
          tick := 3600;
        } else if idcpm == 0 {
          if verbose {
            tick := 0;
          }
        }
      }
    }
  }

  /**
   * The tag test on `55 AA 00`: a time marker when a closing `55 AA`
   * follows the date bytes, otherwise the first byte as a raw count.
   * (`GmcParse5.TestMarker` with the message variable).
   */
  method TestMarker(data: seq<byte>, verbose: bool, st: State, msgvIn: Option<Line>)
    returns (ccount: int, after: State, msgv: Option<Line>, raised: Option<DecodeError>, ghost rec: Record)
    requires st.dp + 2 < |data| && data[st.dp] == TAG_1 && data[st.dp + 1] == TAG_2 && data[st.dp + 2] == TIME_MARKER
    ensures raised.Some? ==> Step(data, verbose, st) == Failure(raised.value)
    ensures raised.None? ==> Step(data, verbose, st) == Success(Decoded(rec, Tail(after, ccount)))
    ensures raised.None? ==> (ccount >= 0 <==> rec.Sample?) && (rec.Sample? ==> rec.at == after.datenow && rec.value == ccount)
    ensures raised.None? && !rec.Sample? && verbose ==> msgv == Message(rec)
    ensures raised.None? ==> after.dp >= st.dp
  {
    var dp := st.dp;
    var idcpm := st.idcpm;
    var tick := st.tick;
    var datenow := st.datenow;
    msgv := msgvIn;
    raised := None;
    after := st;
    rec := IdTag([]);
    ghost var unclosed := false;
    ccount := data[dp];
    if dp + 9 >= |data| {
      raised := Some(IndexOutOfRange(dp + 9));
      return;
    }
    var closed := data[dp + 9] == TAG_1;
    if closed {
      if dp + 10 >= |data| {
        raised := Some(IndexOutOfRange(dp + 10));
        return;
      }
      closed := data[dp + 10] == TAG_2;
    }
    if closed {
      if dp + 11 >= |data| {
        raised := Some(IndexOutOfRange(dp + 11));
        return;
      }
      var changed;
      idcpm, tick, changed, msgv := SwitchInterval(data[dp + 11], idcpm, tick, verbose, msgv);
      var stamp := Calendar.FromBytes(data[dp + 3 .. dp + 9]);
      if stamp.Failure? {
        raised := Some(BadDate(dp + 3, stamp.error, idcpm, changed));
        return;
      }
      datenow := Calendar.Clock(stamp.value, 0);
      if verbose {
        msgv := Some(TimeTag(datenow, idcpm));
      }
      rec := TimeMark(datenow, idcpm, changed);
      ccount := -1;
      dp := dp + 11;
    } else {
      unclosed := true;
    }
    if ccount >= 0 {
      rec := Sample(datenow, ccount, unclosed);
    }
    after := State(dp, idcpm, tick, datenow);
  }

  /**
   * The tag test at the top of the loop, as in the stand-alone tool but
   * keeping its verbose messages in `msgv` instead of printing them:
   * `msgv` comes in from the previous turn and goes out as this turn left it.
   */
  method TestTag(data: seq<byte>, verbose: bool, st: State, msgvIn: Option<Line>)
    returns (ccount: int, after: State, msgv: Option<Line>, raised: Option<DecodeError>, ghost rec: Record)
    requires st.dp < |data|
    ensures raised.Some? ==> Step(data, verbose, st) == Failure(raised.value)
    ensures raised.None? ==> Step(data, verbose, st) == Success(Decoded(rec, Tail(after, ccount)))
    ensures raised.None? ==> (ccount >= 0 <==> rec.Sample?) && (rec.Sample? ==> rec.at == after.datenow && rec.value == ccount)
    ensures raised.None? && !rec.Sample? && verbose ==> msgv == Message(rec)
    ensures raised.None? ==> after.dp >= st.dp
  {
    var dp := st.dp;
    var idcpm := st.idcpm;
    var tick := st.tick;
    var datenow := st.datenow;
    msgv := msgvIn;
    raised := None;
    after := st;
    rec := IdTag([]);
    ghost var unclosed := false;
    ccount := data[dp];
    if data[dp] == TAG_1 {
      if dp + 1 >= |data| {
        raised := Some(IndexOutOfRange(dp + 1));
        return;
      }
      if data[dp + 1] == TAG_2 {
        if dp + 2 >= |data| {
          raised := Some(IndexOutOfRange(dp + 2));
          return;
        }
        if data[dp + 2] == TIME_MARKER {
          ccount, after, msgv, raised, rec := TestMarker(data, verbose, st, msgvIn);
          return;
        } else if data[dp + 2] == WIDE_COUNT {
          if dp + 3 >= |data| {
            raised := Some(IndexOutOfRange(dp + 3));
            return;
          }
          if dp + 4 >= |data| {
            raised := Some(IndexOutOfRange(dp + 4));
            return;
          }
          ccount := data[dp + 3] as int * 0x100 + data[dp + 4];
          dp := dp + 4;
        } else if data[dp + 2] == ID_STRING {
          if dp + 3 >= |data| {
            raised := Some(IndexOutOfRange(dp + 3));
            return;
          }
          var strgl := data[dp + 3];
          var strg := data[dp + 4 .. Min(dp + 4 + strgl, |data|)];
          if verbose {
            msgv := Some(IdTagFound(strg));
          }
          rec := IdTag(strg);
          ccount := -1;
          dp := dp + 3 + strgl;
        }
      }
    }
    if ccount >= 0 {
      rec := Sample(datenow, ccount, unclosed);
    }
    after := State(dp, idcpm, tick, datenow);
  }

  /** The tag test seen from the whole decoding pass, as `GmcParse5.NextRecord`. */
  method NextRecord(data: seq<byte>, verbose: bool, st: State, msgvIn: Option<Line>, ghost recs: seq<Record>, ghost whole: Trace)
    returns (ccount: int, after: State, msgv: Option<Line>, raised: Option<DecodeError>, ghost rec: Record)
    requires st.dp < |data| && DecodedUpTo(data, verbose, recs, st, whole)
    ensures raised.Some? ==> whole == Trace(recs, Failed(raised.value))
    ensures raised.None? ==> var nxt := Tail(after, ccount);
      && (nxt.dp <= MAX_CURSOR ==> DecodedUpTo(data, verbose, recs + [rec], nxt, whole))
      && (nxt.dp > MAX_CURSOR ==> whole == Trace(recs + [rec], Aborted))
    ensures raised.None? ==> (ccount >= 0 <==> rec.Sample?) && (rec.Sample? ==> rec.at == after.datenow && rec.value == ccount)
    ensures raised.None? && !rec.Sample? && verbose ==> msgv == Message(rec)
    ensures raised.None? ==> after.dp >= st.dp
  {
    ccount, after, msgv, raised, rec := TestTag(data, verbose, st, msgvIn);
    if raised.Some? {
      RunFails(data, verbose, recs, st, whole, raised.value);
    } else {
      RunAdvances(data, verbose, recs, st, whole, Decoded(rec, Tail(after, ccount)));
    }
  }

  lemma Extend(recs: seq<Record>, rec: Record, verbose: bool)
    ensures FormRecords(recs + [rec], verbose) == FormRecords(recs, verbose) + FormRecord(rec, verbose)
  {
    assert (recs + [rec])[..|recs|] == recs;
  }

  /**
   * One turn of the loop: the tag test, then the tail that writes a count
   * line (or, in verbose mode, `msgv`) and steps the clock, `dp += 1` and
   * the ceiling test. `written` is what this turn adds to the form and to
   * the file.
   */
  method Turn(data: seq<byte>, verbose: bool, st: State, msgvIn: Option<Line>, ghost recs: seq<Record>, ghost whole: Trace)
    returns (next: State, msgv: Option<Line>, written: seq<Line>, stop: Option<Outcome>, ghost done: seq<Record>)
    requires st.dp < |data| && DecodedUpTo(data, verbose, recs, st, whole)
    ensures stop.None? ==> st.dp < next.dp && DecodedUpTo(data, verbose, done, next, whole)
    ensures stop.Some? ==> whole.records == done && !whole.end.Finished?
    ensures stop.Some? ==> stop.value == OutcomeOf(whole.end)
    ensures FormRecords(done, verbose) == FormRecords(recs, verbose) + written
  {
    var ccount, after, raised;
    ghost var rec;
    ccount, after, msgv, raised, rec := NextRecord(data, verbose, st, msgvIn, recs, whole);
    next := st;
    written := [];
    if raised.Some? {
      stop := Some(Raised(raised.value));
      done := recs;
      assert recs + [] == recs;
      return;
    }
    var dp, idcpm, tick, datenow := after.dp, after.idcpm, after.tick, after.datenow;
    if ccount >= 0 {
      written := [CountLine(datenow, ccount)];
      datenow := datenow.Plus(tick);
    } else if verbose {
      written := [msgv.value];
    }
    dp := dp + 1;
    next := State(dp, idcpm, tick, datenow);
    assert next == Tail(after, ccount);
    assert written == FormRecord(rec, verbose);
    Extend(recs, rec, verbose);
    done := recs + [rec];
    stop := None;
    if dp > MAX_CURSOR {
      stop := Some(Exited);
    }
  }

  /**
   * The loop of `analyse`. What it writes to the form and to the report
   * file, and how it ends, are those of the decoding pass `Decode(data, verbose)`.
   */
  method Analyse(data: seq<byte>, verbose: bool, hasFile: bool) returns (form: seq<Line>, file: seq<Line>, outcome: Outcome)
    ensures var t := Decode(data, verbose);
      && form == Form(t, verbose)
      && file == (if hasFile then FormRecords(t.records, verbose) else [])
      && outcome == OutcomeOf(t.end)
  {
    var st := Start;
    var msgv: Option<Line> := None;
    form := [];
    file := [];
    ghost var recs: seq<Record> := [];
    ghost var whole := Decode(data, verbose);
    RunStarts(data, verbose);
    while st.dp < |data|
      invariant DecodedUpTo(data, verbose, recs, st, whole)
      invariant form == FormRecords(recs, verbose)
      invariant file == (if hasFile then FormRecords(recs, verbose) else [])
      decreases |data| - st.dp
    {
      var written, stop;
      st, msgv, written, stop, recs := Turn(data, verbose, st, msgv, recs, whole);
      form := form + written;
      if hasFile {
        file := file + written;
      }
      if stop.Some? {
        outcome := stop.value;
        return;
      }
    }
    RunFinishes(data, verbose, recs, st, whole);
    var msge := "";
    if Before2000(st.datenow) {
      msge := NO_DATE;
    }
    form := form + [Done];
    outcome := Returned(msge);
  }

  /** The line record `r` writes in verbose mode: its count line, or its message. */
  function VerboseLine(r: Record): Line
  {
    if r.Sample? then CountLine(r.at, r.value) else Message(r).value
  }

  /** In verbose mode every record writes exactly one line, its own, in order. */
  lemma {:induction false} VerboseFormLines(recs: seq<Record>)
    ensures |FormRecords(recs, true)| == |recs|
    ensures forall i :: 0 <= i < |recs| ==> FormRecords(recs, true)[i] == VerboseLine(recs[i])
  {
    if recs != [] {
      VerboseFormLines(recs[..|recs| - 1]);
    }
  }

  /**
   * The interval-change message a switching marker leaves in `msgv` is
   * overwritten by its time tag before anything is written, so it never
   * reaches the form or the file.
   */
  lemma {:induction false} NoIntervalNoteWritten(recs: seq<Record>, verbose: bool)
    ensures forall l :: l in FormRecords(recs, verbose) ==> !l.IntervalChanged? && !l.IntervalOff?
  {
    if recs != [] {
      NoIntervalNoteWritten(recs[..|recs| - 1], verbose);
    }
  }

  /** Without verbose mode the form and the file get the count lines and nothing else. */
  lemma {:induction false} QuietForm(recs: seq<Record>)
    ensures FormRecords(recs, false) == SampleLines(recs)
  {
    if recs != [] {
      QuietForm(recs[..|recs| - 1]);
    }
  }

  /** In either mode the count lines written are exactly the samples' count lines. */
  lemma {:induction false} FormCounts(recs: seq<Record>, verbose: bool)
    ensures Counts(FormRecords(recs, verbose)) == SampleLines(recs)
  {
    if recs != [] {
      var init, r := recs[..|recs| - 1], recs[|recs| - 1];
      FormCounts(init, verbose);
      CountsAppend(FormRecords(init, verbose), FormRecord(r, verbose));
      assert Counts(FormRecord(r, verbose)) == SampleLine(r) by {
        assert FormRecord(r, verbose)[..0] == [];
      }
    }
  }

  lemma {:induction false} FormRecordsNotDone(recs: seq<Record>, verbose: bool)
    ensures Done !in FormRecords(recs, verbose)
  {
    if recs != [] {
      FormRecordsNotDone(recs[..|recs| - 1], verbose);
    }
  }

  /**
   * `*** done ***` is written once, as the last line of the form, exactly
   * when the loop ran to the end of the data.
   */
  lemma DoneIsLast(data: seq<byte>, verbose: bool)
    ensures var t := Decode(data, verbose); var form := Form(t, verbose);
      forall i :: 0 <= i < |form| ==> (form[i] == Done <==> t.end.Finished? && i == |form| - 1)
  {
    var t := Decode(data, verbose);
    FormRecordsNotDone(t.records, verbose);
    var form := Form(t, verbose);
    forall i | 0 <= i < |form|
      ensures form[i] == Done <==> t.end.Finished? && i == |form| - 1
    {
      if i < |FormRecords(t.records, verbose)| {
        assert form[i] in FormRecords(t.records, verbose);
      }
    }
  }

  /**
   * A run that finishes returns the no-date message exactly when it met no
   * time marker, and the empty message otherwise.
   */
  lemma ReturnsNoDateIffNoMarker(data: seq<byte>, verbose: bool)
    ensures var t := Decode(data, verbose);
      t.end.Finished? ==> OutcomeOf(t.end) == Returned(if NoMarker(t.records) then NO_DATE else [])
  {
    WarningIffNoMarker(data, verbose);
  }
}
