/**
 * The history-log grammar and the single pass `analyse` makes over it,
 * written as reference functions: `Step` decodes the record at the cursor,
 * `Run` repeats it until the cursor leaves the buffer. Both versions of
 * `analyse` are proved against `Run`.
 *
 * A byte at the cursor is a raw count unless a tag starts there:
 *   `55 AA 00 yy mm dd hh mm ss 55 AA id`   time marker
 *   `55 AA 01 DH DL`                        two-byte count
 *   `55 AA 02 L c1 .. cL`                   string tag
 */
module Decoder {
  import opened Wrappers
  import opened Bytes
  import Calendar

  const TAG_1: byte := 0x55
  const TAG_2: byte := 0xAA
  const TIME_MARKER: byte := 0x00
  const WIDE_COUNT: byte := 0x01
  const ID_STRING: byte := 0x02

  /** The image holds at most 16 pages of 4096 bytes; a cursor beyond that ends the program. */
  const MAX_CURSOR: nat := 65536

  /** `datetime(1950, 1, 22, 11, 12, 13)`, the time stamp before any marker. */
  const INITIAL_DATE: Calendar.Date := Calendar.DateTime(1950, 1, 22, 11, 12, 13)

  /** The first second of 2000. */
  const Y2K: int := Calendar.YearStart(2000)

  /** The seconds in one interval of each id: 0 off, 1 second, 2 minute, 3 hour. */
  const INTERVAL_SECONDS: seq<nat> := [0, 1, 60, 3600]

  /**
   * The decoder's variables between two records: the cursor `dp`, the
   * interval id `idcpm`, the `tick` in seconds and the time stamp `datenow`.
   */
  datatype State = State(dp: nat, idcpm: nat, tick: nat, datenow: Calendar.Clock)

  const Start: State := State(0, 2, 60, Calendar.Clock(INITIAL_DATE, 0))

  /** `datenow.year < 2000`. */
  predicate Before2000(c: Calendar.Clock)
  {
    Calendar.Instant(c) < Y2K
  }

  /** What makes a record raise. */
  datatype DecodeError =
    | IndexOutOfRange(index: nat)
      // a look-ahead past the end of the buffer: `IndexError`
    | BadDate(at: nat, why: Calendar.DateError, idcpm: nat, changed: bool)
      // date bytes at `at` that `datetime` refuses: `ValueError`; the
      // interval switch before it has already happened
  /** One decoded record. */
  datatype Record =
    | Sample(at: Calendar.Clock, value: nat, unclosedMarker: bool)
      // a count at time stamp `at`; `unclosedMarker` for a `55 AA 00` without its closing `55 AA`
    | TimeMark(at: Calendar.Clock, idcpm: nat, changed: bool)
      // a time marker: the new time stamp, the interval id after it, whether the id switched
    | IdTag(text: seq<byte>)

  datatype Decoded = Decoded(record: Record, next: State)

  /**
   * The tick chosen when the interval switches to `id`. Switching to 0
   * stops the clock only when `verbose` is set; otherwise the tick stays.
   */
  function TickFor(id: nat, verbose: bool, tick: nat): (r: nat)
    ensures r == tick || r in INTERVAL_SECONDS
    ensures id >= 4 || (id == 0 && !verbose) ==> r == tick
  {
    if id == 2 then 60
    else if id == 1 then 1
    else if id == 3 then 3600
    else if id == 0 && verbose then 0
    else tick
  }

  /** Whether a marker's interval id replaces the current one. */
  predicate Switches(id: nat, idcpm: nat)
  {
    id < 4 && id != idcpm
  }

  /** The tick is the length of the interval the id names, except for id 0 without `verbose`. */
  lemma TickForInterval(id: nat, verbose: bool, tick: nat)
    requires id < 4
    ensures id != 0 || verbose ==> TickFor(id, verbose, tick) == INTERVAL_SECONDS[id]
    ensures id == 0 && !verbose ==> TickFor(id, verbose, tick) == tick
  {
  }

  /** The byte at the cursor taken as a raw count. */
  function RawCount(data: seq<byte>, st: State, unclosed: bool): Decoded
    requires st.dp < |data|
  {
    Decoded(Sample(st.datenow, data[st.dp], unclosed), State(st.dp + 1, st.idcpm, st.tick, st.datenow.Plus(st.tick)))
  }

  /**
   * The record at `st.dp`, with the state after it. Look-aheads are
   * evaluated in the order Python evaluates them, and each fails where
   * Python's would raise.
   */
  function Step(data: seq<byte>, verbose: bool, st: State): (r: Result<Decoded, DecodeError>)
    requires st.dp < |data|
    ensures r.Success? ==> st.dp < r.value.next.dp <= |data| + 255 && r.value.next.dp <= st.dp + 259
    ensures r.Success? && !r.value.record.IdTag? ==> r.value.next.dp <= |data|
    ensures r.Success? && !r.value.record.TimeMark? ==> r.value.next.idcpm == st.idcpm && r.value.next.tick == st.tick
    ensures r.Success? && r.value.record.Sample? ==>
      r.value.record.at == st.datenow && r.value.next.datenow == st.datenow.Plus(st.tick) && r.value.record.value < 0x1_0000
    ensures r.Success? && r.value.record.IdTag? ==> r.value.next.datenow == st.datenow
    ensures r.Success? && r.value.record.TimeMark? ==>
      && r.value.record.at == r.value.next.datenow
      && r.value.next.datenow.offset == 0 && r.value.next.datenow.base.year >= 2000
      && r.value.record.idcpm == r.value.next.idcpm
    ensures r.Failure? ==> data[st.dp] == TAG_1
    ensures r.Failure? && r.error.IndexOutOfRange? ==> r.error.index >= |data|
  {
    var dp := st.dp;
    if data[dp] != TAG_1 then Success(RawCount(data, st, false))
    else if dp + 1 >= |data| then Failure(IndexOutOfRange(dp + 1))
    else if data[dp + 1] != TAG_2 then Success(RawCount(data, st, false))
    else if dp + 2 >= |data| then Failure(IndexOutOfRange(dp + 2))
    else if data[dp + 2] == TIME_MARKER then
      if dp + 9 >= |data| then Failure(IndexOutOfRange(dp + 9))
      else if data[dp + 9] != TAG_1 then Success(RawCount(data, st, true))
      else if dp + 10 >= |data| then Failure(IndexOutOfRange(dp + 10))
      else if data[dp + 10] != TAG_2 then Success(RawCount(data, st, true))
      else if dp + 11 >= |data| then Failure(IndexOutOfRange(dp + 11))
      else
        var id := data[dp + 11];
        var changed := Switches(id, st.idcpm);
        var idcpm := if changed then id else st.idcpm;
        var tick := if changed then TickFor(id, verbose, st.tick) else st.tick;
        match Calendar.FromBytes(data[dp + 3 .. dp + 9])
        case Failure(why) => Failure(BadDate(dp + 3, why, idcpm, changed))
        case Success(d) =>
          var t := Calendar.Clock(d, 0);
          Success(Decoded(TimeMark(t, idcpm, changed), State(dp + 12, idcpm, tick, t)))
    else if data[dp + 2] == WIDE_COUNT then
      if dp + 3 >= |data| then Failure(IndexOutOfRange(dp + 3))
      else if dp + 4 >= |data| then Failure(IndexOutOfRange(dp + 4))
      else
        var value := data[dp + 3] as int * 0x100 + data[dp + 4];
        Success(Decoded(Sample(st.datenow, value, false), State(dp + 5, st.idcpm, st.tick, st.datenow.Plus(st.tick))))
    else if data[dp + 2] == ID_STRING then
      if dp + 3 >= |data| then Failure(IndexOutOfRange(dp + 3))
      else
        var len := data[dp + 3];
        Success(Decoded(IdTag(data[dp + 4 .. Min(dp + 4 + len, |data|)]), State(dp + 4 + len, st.idcpm, st.tick, st.datenow)))
    else Success(RawCount(data, st, false))
  }

  /** How a pass ends: the loop runs out, the cursor passes the ceiling (`exit(1)`), or a record raises. */
  datatype End = Finished(final: State) | Aborted | Failed(error: DecodeError)

  /** The records of a pass in order, and how it ended. */
  datatype Trace = Trace(records: seq<Record>, end: End)

  /**
   * The pass from `st` on. The record whose cursor passes `MAX_CURSOR` is
   * still delivered before the pass ends; a record that raises is not.
   */
  function Run(data: seq<byte>, verbose: bool, st: State): (t: Trace)
    ensures t.end.Finished? ==> t.end.final.dp >= |data|
    decreases |data| - st.dp
  {
    if st.dp >= |data| then Trace([], Finished(st))
    else
      match Step(data, verbose, st)
      case Failure(e) => Trace([], Failed(e))
      case Success(d) =>
        if d.next.dp > MAX_CURSOR then Trace([d.record], Aborted)
        else
          var rest := Run(data, verbose, d.next);
          Trace([d.record] + rest.records, rest.end)
  }

  /** The records `recs`, followed by the trace `t`. */
  function Continued(recs: seq<Record>, t: Trace): Trace
  {
    Trace(recs + t.records, t.end)
  }

  /**
   * `analyse(data)`: the pass from the initial state. It delivers at most
   * one record per cursor position up to the ceiling, and the first
   * record, if it is a count, is stamped with the initial time.
   */
  function Decode(data: seq<byte>, verbose: bool): (r: Trace)
    ensures |r.records| <= MAX_CURSOR + 1
    ensures |r.records| > 0 && r.records[0].Sample? ==> r.records[0].at == Calendar.Clock(INITIAL_DATE, 0)
    ensures data == [] ==> r == Trace([], Finished(Start))
  {
    RecordsBound(data, verbose, Start);
    Run(data, verbose, Start)
  }

  /** Each record of a pass starts at its own cursor position, and none starts beyond the ceiling. */
  lemma {:induction false} RecordsBound(data: seq<byte>, verbose: bool, st: State)
    requires st.dp <= MAX_CURSOR
    ensures |Run(data, verbose, st).records| <= MAX_CURSOR + 1 - st.dp
    decreases |data| - st.dp
  {
    if st.dp < |data| {
      match Step(data, verbose, st)
      case Failure(_) =>
      case Success(d) =>
        if d.next.dp <= MAX_CURSOR {
          RecordsBound(data, verbose, d.next);
        }
    }
  }

  /**
   * The state after the tail of the decoding loop, from the variables the
   * tag test left in `after`: `datenow += tick` when a count was read
   * (`ccount >= 0`), then `dp += 1`.
   */
  function Tail(after: State, ccount: int): (r: State)
    ensures r.dp == after.dp + 1 && r.idcpm == after.idcpm && r.tick == after.tick
    ensures r.datenow.base == after.datenow.base
    ensures Calendar.Instant(r.datenow) == Calendar.Instant(after.datenow) + (if ccount >= 0 then after.tick else 0)
  {
    State(after.dp + 1, after.idcpm, after.tick, if ccount >= 0 then after.datenow.Plus(after.tick) else after.datenow)
  }

  /** The pass `whole` over `data` has delivered `recs` and carries on from `st`. */
  ghost predicate DecodedUpTo(data: seq<byte>, verbose: bool, recs: seq<Record>, st: State, whole: Trace)
  {
    whole == Continued(recs, Run(data, verbose, st))
  }

  /** Before the first record the pass has delivered nothing. */
  lemma RunStarts(data: seq<byte>, verbose: bool)
    ensures DecodedUpTo(data, verbose, [], Start, Decode(data, verbose))
  {
    assert [] + Decode(data, verbose).records == Decode(data, verbose).records;
  }

  /** A pass that has delivered `recs` and reaches an end of data finishes there. */
  lemma RunFinishes(data: seq<byte>, verbose: bool, recs: seq<Record>, st: State, whole: Trace)
    requires DecodedUpTo(data, verbose, recs, st, whole)
    requires st.dp >= |data|
    ensures whole == Trace(recs, Finished(st))
  {
    assert recs + [] == recs;
  }

  /** A pass that has delivered `recs` and meets a record that raises ends with that error. */
  lemma RunFails(data: seq<byte>, verbose: bool, recs: seq<Record>, st: State, whole: Trace, e: DecodeError)
    requires DecodedUpTo(data, verbose, recs, st, whole)
    requires st.dp < |data| && Step(data, verbose, st) == Failure(e)
    ensures whole == Trace(recs, Failed(e))
  {
    assert recs + [] == recs;
  }

  /** One more record delivered; the pass goes on from the state after it, or ends there beyond the ceiling. */
  lemma RunAdvances(data: seq<byte>, verbose: bool, recs: seq<Record>, st: State, whole: Trace, d: Decoded)
    requires DecodedUpTo(data, verbose, recs, st, whole)
    requires st.dp < |data| && Step(data, verbose, st) == Success(d)
    ensures d.next.dp <= MAX_CURSOR ==> DecodedUpTo(data, verbose, recs + [d.record], d.next, whole)
    ensures d.next.dp > MAX_CURSOR ==> whole == Trace(recs + [d.record], Aborted)
  {
    var rest := Run(data, verbose, d.next);
    assert recs + ([d.record] + rest.records) == (recs + [d.record]) + rest.records;
  }

  // ---------------------------------------------------------------------
  // The records, one at a time
  // ---------------------------------------------------------------------

  /** The date and time the six bytes from `i` on stand for, with 2000 added to the year. */
  function DateAt(data: seq<byte>, i: nat): Calendar.DateTime
    requires i + 6 <= |data|
  {
    Calendar.DateTime(data[i] as int + 2000, data[i + 1], data[i + 2], data[i + 3], data[i + 4], data[i + 5])
  }

  /**
   * A closed time marker sets the time stamp to its six date bytes, whatever
   * it was before, emits no count and moves the cursor by 12; the interval
   * switches when its id is below 4 and differs from the current one.
   */
  lemma MarkerStep(data: seq<byte>, verbose: bool, st: State)
    requires st.dp + 11 < |data|
    requires data[st.dp] == TAG_1 && data[st.dp + 1] == TAG_2 && data[st.dp + 2] == TIME_MARKER
    requires data[st.dp + 9] == TAG_1 && data[st.dp + 10] == TAG_2
    requires Calendar.Valid(DateAt(data, st.dp + 3))
    ensures Step(data, verbose, st).Success?
    ensures var d := Step(data, verbose, st).value;
      && d.record.TimeMark?
      && d.next.dp == st.dp + 12
      && d.next.datenow == Calendar.Clock(DateAt(data, st.dp + 3), 0)
      && d.record.changed == Switches(data[st.dp + 11], st.idcpm)
      && (d.record.changed ==> d.next.idcpm == data[st.dp + 11] && d.next.tick == TickFor(data[st.dp + 11], verbose, st.tick))
      && (!d.record.changed ==> d.next.idcpm == st.idcpm && d.next.tick == st.tick)
  {
    var b := data[st.dp + 3 .. st.dp + 9];
    assert b[0] == data[st.dp + 3] && b[1] == data[st.dp + 4] && b[2] == data[st.dp + 5];
    assert b[3] == data[st.dp + 6] && b[4] == data[st.dp + 7] && b[5] == data[st.dp + 8];
  }

  /** A marker whose date bytes `datetime` refuses raises, after switching the interval. */
  lemma BadDateStep(data: seq<byte>, verbose: bool, st: State)
    requires st.dp + 11 < |data|
    requires data[st.dp] == TAG_1 && data[st.dp + 1] == TAG_2 && data[st.dp + 2] == TIME_MARKER
    requires data[st.dp + 9] == TAG_1 && data[st.dp + 10] == TAG_2
    requires !Calendar.Valid(DateAt(data, st.dp + 3))
    ensures Step(data, verbose, st) ==
      Failure(BadDate(st.dp + 3, Calendar.OutOfRange,
                      if Switches(data[st.dp + 11], st.idcpm) then data[st.dp + 11] else st.idcpm,
                      Switches(data[st.dp + 11], st.idcpm)))
  {
    var b := data[st.dp + 3 .. st.dp + 9];
    assert b[0] == data[st.dp + 3] && b[1] == data[st.dp + 4] && b[2] == data[st.dp + 5];
    assert b[3] == data[st.dp + 6] && b[4] == data[st.dp + 7] && b[5] == data[st.dp + 8];
  }

  /** `55 AA 01 H L` is the count `256 * H + L` at the current time stamp; the clock then ticks and the cursor moves by 5. */
  lemma WideCountStep(data: seq<byte>, verbose: bool, st: State)
    requires st.dp + 4 < |data|
    requires data[st.dp] == TAG_1 && data[st.dp + 1] == TAG_2 && data[st.dp + 2] == WIDE_COUNT
    ensures Step(data, verbose, st) ==
      Success(Decoded(Sample(st.datenow, 256 * data[st.dp + 3] as int + data[st.dp + 4], false),
                      State(st.dp + 5, st.idcpm, st.tick, st.datenow.Plus(st.tick))))
  {
  }

  /**
   * `55 AA 02 L ..` is the tag of the `L` bytes after the length byte (as
   * many as the buffer holds); the cursor moves by `4 + L` and the clock
   * stands still.
   */
  lemma IdTagStep(data: seq<byte>, verbose: bool, st: State)
    requires st.dp + 3 < |data|
    requires data[st.dp] == TAG_1 && data[st.dp + 1] == TAG_2 && data[st.dp + 2] == ID_STRING
    ensures Step(data, verbose, st).Success?
    ensures var d := Step(data, verbose, st).value;
      && d.record.IdTag?
      && d.record.text <= data[st.dp + 4..]
      && |d.record.text| == Min(data[st.dp + 3], |data| - (st.dp + 4))
      && d.next == State(st.dp + 4 + data[st.dp + 3], st.idcpm, st.tick, st.datenow)
  {
  }

  /** Where no complete tag starts, the byte at the cursor is a raw count. */
  predicate NoTagAt(data: seq<byte>, dp: nat)
    requires dp < |data|
  {
    || data[dp] != TAG_1
    || (dp + 1 < |data| && data[dp + 1] != TAG_2)
    || (dp + 2 < |data| && data[dp + 1] == TAG_2 && data[dp + 2] > ID_STRING)
  }

  /** Every other byte is a count from 0 to 255; the clock ticks and the cursor moves by 1. */
  lemma RawStep(data: seq<byte>, verbose: bool, st: State)
    requires st.dp < |data| && NoTagAt(data, st.dp)
    ensures Step(data, verbose, st) ==
      Success(Decoded(Sample(st.datenow, data[st.dp], false), State(st.dp + 1, st.idcpm, st.tick, st.datenow.Plus(st.tick))))
  {
  }

  /** `55 AA 00` without the closing `55 AA` is the count 0x55, with the warning flag set. */
  lemma UnclosedMarkerStep(data: seq<byte>, verbose: bool, st: State)
    requires st.dp + 9 < |data|
    requires data[st.dp] == TAG_1 && data[st.dp + 1] == TAG_2 && data[st.dp + 2] == TIME_MARKER
    requires data[st.dp + 9] != TAG_1 || (st.dp + 10 < |data| && data[st.dp + 10] != TAG_2)
    ensures Step(data, verbose, st) ==
      Success(Decoded(Sample(st.datenow, 0x55, true), State(st.dp + 1, st.idcpm, st.tick, st.datenow.Plus(st.tick))))
  {
  }

  /** A `55` or `55 AA` at the very end of the buffer makes the look-ahead raise. */
  lemma LookAheadFails(data: seq<byte>, verbose: bool, st: State)
    requires st.dp < |data| && data[st.dp] == TAG_1
    requires st.dp + 1 == |data| || (data[st.dp + 1] == TAG_2 && st.dp + 2 == |data|)
    ensures Step(data, verbose, st) == Failure(IndexOutOfRange(|data|))
  {
  }

  // ---------------------------------------------------------------------
  // The whole pass
  // ---------------------------------------------------------------------

  /**
   * The ceiling is passed only by a buffer longer than 65281 bytes, and
   * within 65536 bytes only by a string tag whose length reaches beyond the
   * buffer; that record is the last one delivered.
   */
  lemma {:induction false} AbortedOnlyNearCeiling(data: seq<byte>, verbose: bool, st: State)
    ensures var t := Run(data, verbose, st);
      t.end == Aborted ==>
        && |data| + 255 > MAX_CURSOR
        && |t.records| > 0
        && (|data| <= MAX_CURSOR ==> t.records[|t.records| - 1].IdTag?)
    decreases |data| - st.dp
  {
    if st.dp < |data| {
      var r := Step(data, verbose, st);
      if r.Success? && r.value.next.dp <= MAX_CURSOR {
        AbortedOnlyNearCeiling(data, verbose, r.value.next);
        var rest := Run(data, verbose, r.value.next);
        assert Run(data, verbose, st).records == [r.value.record] + rest.records;
      }
    }
  }

  /**
   * Bytes that start no tag are read one count at a time: the pass from
   * `st` ends as the pass from cursor `n` does, with the clock `n - st.dp`
   * ticks on.
   */
  lemma {:induction false} PlainCountsRun(data: seq<byte>, verbose: bool, st: State, n: nat)
    requires st.dp <= n <= |data| && n <= MAX_CURSOR
    requires forall j :: st.dp <= j < n ==> data[j] != TAG_1
    ensures Run(data, verbose, st).end ==
      Run(data, verbose, State(n, st.idcpm, st.tick, st.datenow.Plus(st.tick * (n - st.dp)))).end
    decreases n - st.dp
  {
    var far := State(n, st.idcpm, st.tick, st.datenow.Plus(st.tick * (n - st.dp)));
    if st.dp < n {
      RawStep(data, verbose, st);
      var next := State(st.dp + 1, st.idcpm, st.tick, st.datenow.Plus(st.tick));
      assert Run(data, verbose, st).end == Run(data, verbose, next).end;
      PlainCountsRun(data, verbose, next, n);
      OneTickMore(st.datenow, st.tick, n - st.dp - 1);
      assert State(n, next.idcpm, next.tick, next.datenow.Plus(next.tick * (n - next.dp))) == far;
    } else {
      assert st.datenow.Plus(st.tick * 0) == st.datenow;
      assert st == far;
    }
  }

  lemma OneTickMore(c: Calendar.Clock, tick: nat, k: nat)
    ensures c.Plus(tick).Plus(tick * k) == c.Plus(tick * (k + 1))
  {
    assert tick * (k + 1) == tick + tick * k;
  }

  /** An image of more than 65536 plain counts makes the pass exit at the ceiling. */
  lemma LongImageExits(verbose: bool)
    ensures Decode(Erased(MAX_CURSOR + 1), verbose).end == Aborted
  {
    var data := Erased(MAX_CURSOR + 1);
    PlainCountsRun(data, verbose, Start, MAX_CURSOR);
    var last := State(MAX_CURSOR, Start.idcpm, Start.tick, Start.datenow.Plus(Start.tick * MAX_CURSOR));
    RawStep(data, verbose, last);
  }

  /**
   * Within 65536 bytes, a string tag near the end whose length byte
   * reaches past the ceiling makes the pass exit.
   */
  lemma OvershootingTagExits(verbose: bool)
    ensures var data := Erased(65280) + [TAG_1, TAG_2, ID_STRING, 0xFF];
      |data| <= MAX_CURSOR && Decode(data, verbose).end == Aborted
  {
    var data := Erased(65280) + [TAG_1, TAG_2, ID_STRING, 0xFF];
    assert forall j :: 0 <= j < 65280 ==> data[j] != TAG_1;
    PlainCountsRun(data, verbose, Start, 65280);
    var last := State(65280, Start.idcpm, Start.tick, Start.datenow.Plus(Start.tick * 65280));
    IdTagStep(data, verbose, last);
  }

  /** No record of the list is a time marker. */
  predicate NoMarker(recs: seq<Record>)
  {
    forall k :: 0 <= k < |recs| ==> !recs[k].TimeMark?
  }

  lemma NoMarkerPrepend(r: Record, recs: seq<Record>)
    ensures NoMarker([r] + recs) <==> !r.TimeMark? && NoMarker(recs)
  {
    var s := [r] + recs;
    assert s[0] == r;
    if NoMarker(recs) && !r.TimeMark? {
      forall k | 0 <= k < |s| ensures !s[k].TimeMark? {
        if k > 0 { assert s[k] == recs[k - 1]; }
      }
    }
    if NoMarker(s) {
      forall k | 0 <= k < |recs| ensures !recs[k].TimeMark? {
        assert recs[k] == s[k + 1];
      }
    }
  }

  /**
   * What holds of every state the pass reaches: the cursor is within the
   * ceiling, and the clock either still runs by the minute from 1950, at
   * most one minute per byte, or has been set from a marker in 2000 or later.
   */
  predicate Reachable(st: State)
  {
    && st.dp <= MAX_CURSOR
    && st.datenow.offset >= 0
    && ((st.datenow.base == INITIAL_DATE && st.tick == 60 && st.datenow.offset <= 60 * st.dp)
        || st.datenow.base.year >= 2000)
  }

  lemma StartReachable()
    ensures Reachable(Start)
  {
  }

  /** In a reachable state, `datenow.year < 2000` exactly while the clock still runs from 1950. */
  lemma ReachableBefore2000(st: State)
    requires Reachable(st)
    ensures Before2000(st.datenow) <==> st.datenow.base.year < 2000
  {
    var c := st.datenow;
    if c.base.year >= 2000 {
      Calendar.SecondsWithinYear(c.base, 2000);
    } else {
      assert Calendar.Seconds(INITIAL_DATE) + 60 * MAX_CURSOR < Y2K;
    }
  }

  lemma StepReachable(data: seq<byte>, verbose: bool, st: State)
    requires Reachable(st) && st.dp < |data|
    requires Step(data, verbose, st).Success? && Step(data, verbose, st).value.next.dp <= MAX_CURSOR
    ensures Reachable(Step(data, verbose, st).value.next)
  {
  }

  /**
   * A finished pass from a reachable state ends in a reachable state whose
   * clock is before 2000 exactly when it started so and met no time marker.
   */
  lemma {:induction false} EndsBefore2000(data: seq<byte>, verbose: bool, st: State)
    requires Reachable(st)
    ensures var t := Run(data, verbose, st);
      t.end.Finished? ==>
        && Reachable(t.end.final)
        && (t.end.final.datenow.base.year < 2000 <==> st.datenow.base.year < 2000 && NoMarker(t.records))
    decreases |data| - st.dp
  {
    if st.dp < |data| {
      var r := Step(data, verbose, st);
      if r.Success? && r.value.next.dp <= MAX_CURSOR {
        var d := r.value;
        StepReachable(data, verbose, st);
        EndsBefore2000(data, verbose, d.next);
        NoMarkerPrepend(d.record, Run(data, verbose, d.next).records);
      }
    }
  }

  /** `if datenow.year < 2000`: the warning of a finished `analyse` is due exactly when no time marker was decoded. */
  lemma WarningIffNoMarker(data: seq<byte>, verbose: bool)
    ensures var t := Decode(data, verbose);
      t.end.Finished? ==> (Before2000(t.end.final.datenow) <==> NoMarker(t.records))
  {
    StartReachable();
    EndsBefore2000(data, verbose, Start);
    var t := Decode(data, verbose);
    if t.end.Finished? {
      ReachableBefore2000(t.end.final);
    }
  }

  /** The number of samples in `recs`. */
  function SampleCount(recs: seq<Record>): (n: nat)
    ensures n <= |recs|
  {
    if recs == [] then 0 else SampleCount(recs[..|recs| - 1]) + (if recs[|recs| - 1].Sample? then 1 else 0)
  }

  lemma {:induction false} SampleCountPrepend(r: Record, recs: seq<Record>)
    ensures SampleCount([r] + recs) == SampleCount(recs) + (if r.Sample? then 1 else 0)
    decreases |recs|
  {
    if recs != [] {
      var s := [r] + recs;
      assert s[..|s| - 1] == [r] + recs[..|recs| - 1];
      SampleCountPrepend(r, recs[..|recs| - 1]);
    }
  }

  /**
   * Until the next marker, the sample after `n` earlier samples is stamped
   * `st.datenow + n * st.tick`: every count, and only a count, advances the
   * clock by one tick, so after a switch to seconds each count is one second
   * after the one before.
   */
  lemma {:induction false} SampleTimes(data: seq<byte>, verbose: bool, st: State, i: nat)
    requires var recs := Run(data, verbose, st).records;
      i < |recs| && recs[i].Sample? && NoMarker(recs[..i])
    ensures var recs := Run(data, verbose, st).records;
      recs[i].at == st.datenow.Plus(st.tick * SampleCount(recs[..i]))
    decreases |data| - st.dp
  {
    var recs := Run(data, verbose, st).records;
    RunFirst(data, verbose, st);
    var d := Step(data, verbose, st).value;
    if i == 0 {
      assert recs[0] == d.record && recs[..0] == [];
      assert st.datenow.Plus(st.tick * 0) == st.datenow;
    } else {
      var rest := Run(data, verbose, d.next).records;
      assert d.next.dp <= MAX_CURSOR && recs == [d.record] + rest;
      assert recs[..i] == [d.record] + rest[..i - 1];
      NoMarkerPrepend(d.record, rest[..i - 1]);
      SampleTimes(data, verbose, d.next, i - 1);
      SampleTimeStep(d.record, rest, st.datenow, st.tick, d.next.datenow, i);
    }
  }

  /**
   * The induction step of `SampleTimes`: a record that is not a marker
   * moves the clock by one tick if it is a sample and not at all otherwise.
   */
  lemma SampleTimeStep(r: Record, rest: seq<Record>, c: Calendar.Clock, tick: nat, next: Calendar.Clock, i: nat)
    requires !r.TimeMark? && (r.Sample? ==> next == c.Plus(tick)) && (r.IdTag? ==> next == c)
    requires 0 < i <= |rest| && rest[i - 1].Sample? && rest[i - 1].at == next.Plus(tick * SampleCount(rest[..i - 1]))
    ensures ([r] + rest)[i].at == c.Plus(tick * SampleCount(([r] + rest)[..i]))
  {
    var pre := rest[..i - 1];
    assert ([r] + rest)[..i] == [r] + pre;
    SampleCountPrepend(r, pre);
    var a := if r.Sample? then 1 else 0;
    assert next == c.Plus(tick * a);
    TickedTwice(c, tick, a, SampleCount(pre));
  }

  /** A pass that delivers a record delivers first the record at `st`, then the pass from the state after it. */
  lemma RunFirst(data: seq<byte>, verbose: bool, st: State)
    requires |Run(data, verbose, st).records| > 0
    ensures st.dp < |data| && Step(data, verbose, st).Success?
    ensures var d := Step(data, verbose, st).value;
      Run(data, verbose, st).records == [d.record] + (if d.next.dp <= MAX_CURSOR then Run(data, verbose, d.next).records else [])
  {
  }

  lemma TickedTwice(c: Calendar.Clock, tick: nat, a: nat, n: nat)
    ensures c.Plus(tick * a).Plus(tick * n) == c.Plus(tick * (a + n))
  {
    assert tick * (a + n) == tick * a + tick * n;
  }

  lemma {:induction false} SampleCountMonotone(recs: seq<Record>, i: nat, j: nat)
    requires i <= j <= |recs|
    ensures SampleCount(recs[..i]) <= SampleCount(recs[..j])
    decreases j - i
  {
    if i < j {
      SampleCountMonotone(recs, i, j - 1);
      assert recs[..j][..j - 1] == recs[..j - 1];
    }
  }

  /**
   * Between time markers the time stamps of the counts never decrease: of
   * two samples with no marker before the later one, the later is stamped
   * no earlier. (A marker may set the clock back; see `MarkerMayGoBack`.)
   */
  lemma SamplesNonDecreasing(data: seq<byte>, verbose: bool, st: State, i: nat, j: nat)
    requires var recs := Run(data, verbose, st).records;
      i < j < |recs| && recs[i].Sample? && recs[j].Sample? && NoMarker(recs[..j])
    ensures var recs := Run(data, verbose, st).records;
      recs[i].at.base == recs[j].at.base && Calendar.Instant(recs[i].at) <= Calendar.Instant(recs[j].at)
  {
    var recs := Run(data, verbose, st).records;
    assert NoMarker(recs[..i]) by {
      forall k | 0 <= k < i ensures !recs[..i][k].TimeMark? {
        assert recs[..i][k] == recs[..j][k];
      }
    }
    SampleTimes(data, verbose, st, i);
    SampleTimes(data, verbose, st, j);
    SampleCountMonotone(recs, i, j);
    TicksMonotone(st.datenow, st.tick, SampleCount(recs[..i]), SampleCount(recs[..j]));
  }

  /**
   * Every record of a pass is the first one of the pass from some state
   * the pass reaches: the records before it were delivered on the way.
   */
  lemma {:induction false} RunPrefix(data: seq<byte>, verbose: bool, recs: seq<Record>, st: State, whole: Trace, k: nat)
    requires DecodedUpTo(data, verbose, recs, st, whole)
    requires |recs| <= k < |whole.records|
    ensures exists s: State :: s.dp < |data| && DecodedUpTo(data, verbose, whole.records[..k], s, whole)
    decreases k - |recs|
  {
    assert whole.records == recs + Run(data, verbose, st).records;
    RunFirst(data, verbose, st);
    if k == |recs| {
      assert whole.records[..k] == recs;
      assert st.dp < |data| && DecodedUpTo(data, verbose, whole.records[..k], st, whole);
    } else {
      var d := Step(data, verbose, st).value;
      RunAdvances(data, verbose, recs, st, whole, d);
      assert d.next.dp <= MAX_CURSOR;
      RunPrefix(data, verbose, recs + [d.record], d.next, whole, k);
    }
  }

  /** The records of `Decode(data)` from `k` on are the pass from a state it reaches after `k` records. */
  lemma DecodedPrefix(data: seq<byte>, verbose: bool, k: nat)
    requires k < |Decode(data, verbose).records|
    ensures exists s: State :: s.dp < |data| && DecodedUpTo(data, verbose, Decode(data, verbose).records[..k], s, Decode(data, verbose))
  {
    RunStarts(data, verbose);
    RunPrefix(data, verbose, [], Start, Decode(data, verbose), k);
  }

  /**
   * In the decode of a whole image, of two samples with no marker from the
   * first to the second, the later is stamped no earlier.
   */
  lemma StampsNonDecreasingInImage(data: seq<byte>, verbose: bool, i: nat, j: nat)
    requires var recs := Decode(data, verbose).records;
      i < j < |recs| && recs[i].Sample? && recs[j].Sample? && NoMarker(recs[i..j])
    ensures var recs := Decode(data, verbose).records;
      recs[i].at.base == recs[j].at.base && Calendar.Instant(recs[i].at) <= Calendar.Instant(recs[j].at)
  {
    var whole := Decode(data, verbose);
    var recs := whole.records;
    DecodedPrefix(data, verbose, i);
    var s: State :| s.dp < |data| && DecodedUpTo(data, verbose, recs[..i], s, whole);
    StampsAfterPrefix(data, verbose, s, recs[..i], recs, i, j);
  }

  /** `StampsNonDecreasingInImage` for the records `pre` followed by the pass from `s`. */
  lemma StampsAfterPrefix(data: seq<byte>, verbose: bool, s: State, pre: seq<Record>, recs: seq<Record>, i: nat, j: nat)
    requires recs == pre + Run(data, verbose, s).records && |pre| == i
    requires i < j < |recs| && recs[i].Sample? && recs[j].Sample? && NoMarker(recs[i..j])
    ensures recs[i].at.base == recs[j].at.base && Calendar.Instant(recs[i].at) <= Calendar.Instant(recs[j].at)
  {
    var rest := Run(data, verbose, s).records;
    Segment(recs, pre, rest, i, j);
    SamplesNonDecreasing(data, verbose, s, 0, j - i);
  }

  lemma Segment(recs: seq<Record>, pre: seq<Record>, rest: seq<Record>, i: nat, j: nat)
    requires recs == pre + rest && |pre| == i && i < j < |recs|
    ensures rest[0] == recs[i] && rest[j - i] == recs[j] && rest[..j - i] == recs[i..j]
  {
  }

  lemma TicksMonotone(c: Calendar.Clock, tick: nat, a: nat, b: nat)
    requires a <= b
    ensures Calendar.Instant(c.Plus(tick * a)) <= Calendar.Instant(c.Plus(tick * b))
  {
    assert tick * b == tick * a + tick * (b - a);
  }

  // ---------------------------------------------------------------------
  // Worked examples
  // ---------------------------------------------------------------------

  /** A marker for 2017-02-14 21:20:12 in minutes, then the raw count 7 at that time; the clock then stands a minute later. */
  lemma MarkerThenCount()
    ensures var t := Decode([0x55, 0xAA, 0x00, 0x11, 0x02, 0x0E, 0x15, 0x14, 0x0C, 0x55, 0xAA, 0x02, 0x07], true);
      var at := Calendar.Clock(Calendar.DateTime(2017, 2, 14, 21, 20, 12), 0);
      t == Trace([TimeMark(at, 2, false), Sample(at, 7, false)], Finished(State(13, 2, 60, at.Plus(60))))
  {
    var data: seq<byte> := [0x55, 0xAA, 0x00, 0x11, 0x02, 0x0E, 0x15, 0x14, 0x0C, 0x55, 0xAA, 0x02, 0x07];
    var at := Calendar.Clock(Calendar.DateTime(2017, 2, 14, 21, 20, 12), 0);
    MarkerStep(data, true, Start);
    var s1 := State(12, 2, 60, at);
    assert Step(data, true, Start) == Success(Decoded(TimeMark(at, 2, false), s1));
    RawStep(data, true, s1);
  }

  /** `55 AA 01 00 2A` is the count 42 at the initial time stamp. */
  lemma WideCountExample()
    ensures Decode([0x55, 0xAA, 0x01, 0x00, 0x2A], false) ==
      Trace([Sample(Start.datenow, 42, false)], Finished(State(5, 2, 60, Start.datenow.Plus(60))))
  {
    WideCountStep([0x55, 0xAA, 0x01, 0x00, 0x2A], false, Start);
  }

  /** `55 AA 02 03 41 42 43` is the tag "ABC", and the clock stands still. */
  lemma IdTagExample()
    ensures Decode([0x55, 0xAA, 0x02, 0x03, 0x41, 0x42, 0x43], true) ==
      Trace([IdTag([0x41, 0x42, 0x43])], Finished(State(7, 2, 60, Start.datenow)))
  {
    var data: seq<byte> := [0x55, 0xAA, 0x02, 0x03, 0x41, 0x42, 0x43];
    IdTagStep(data, true, Start);
    assert data[4..7] == [0x41, 0x42, 0x43];
  }

  /** An empty image decodes to nothing and keeps the 1950 time stamp, so the warning is due. */
  lemma EmptyImage(verbose: bool)
    ensures Decode([], verbose) == Trace([], Finished(Start)) && Before2000(Start.datenow)
  {
    StartReachable();
    ReachableBefore2000(Start);
  }

  /** A `55 AA 00` at the cursor among the last nine bytes runs the look-ahead for `data[dp+9]` past the end: the record raises. */
  lemma TruncatedMarkerStep(data: seq<byte>, verbose: bool, st: State)
    requires st.dp + 2 < |data| <= st.dp + 9
    requires data[st.dp] == TAG_1 && data[st.dp + 1] == TAG_2 && data[st.dp + 2] == TIME_MARKER
    ensures Step(data, verbose, st) == Failure(IndexOutOfRange(st.dp + 9))
  {
  }

  /** The count 7, then a `55 AA 00` that the buffer cuts off: the count is delivered, then the marker raises. */
  lemma TruncatedMarker(verbose: bool)
    ensures Decode([0x07, 0x55, 0xAA, 0x00], verbose) ==
      Trace([Sample(Start.datenow, 7, false)], Failed(IndexOutOfRange(10)))
  {
    var data: seq<byte> := [0x07, 0x55, 0xAA, 0x00];
    RawStep(data, verbose, Start);
    TruncatedMarkerStep(data, verbose, State(1, Start.idcpm, Start.tick, Start.datenow.Plus(Start.tick)));
  }

  /** `55 AA 01 55 AA 00` ends normally: the two-byte count 0x55AA takes the second `55 AA`, and the final `00` is a raw count. */
  lemma WideCountHidesMarker(verbose: bool)
    ensures Decode([0x55, 0xAA, 0x01, 0x55, 0xAA, 0x00], verbose).end.Finished?
    ensures Decode([0x55, 0xAA, 0x01, 0x55, 0xAA, 0x00], verbose).records ==
      [Sample(Start.datenow, 0x55AA, false), Sample(Start.datenow.Plus(Start.tick), 0, false)]
  {
    var data: seq<byte> := [0x55, 0xAA, 0x01, 0x55, 0xAA, 0x00];
    WideCountStep(data, verbose, Start);
    var second := State(5, Start.idcpm, Start.tick, Start.datenow.Plus(Start.tick));
    RawStep(data, verbose, second);
  }

  /** A marker for 2017-02-14 21:20:12, the count 7, a marker for one second earlier, the count 8. */
  const GO_BACK: seq<byte> := [0x55, 0xAA, 0x00, 0x11, 0x02, 0x0E, 0x15, 0x14, 0x0C, 0x55, 0xAA, 0x02, 0x07,
                               0x55, 0xAA, 0x00, 0x11, 0x02, 0x0E, 0x15, 0x14, 0x0B, 0x55, 0xAA, 0x02, 0x08]

  const GO_BACK_FIRST: Calendar.Clock := Calendar.Clock(Calendar.DateTime(2017, 2, 14, 21, 20, 12), 0)
  const GO_BACK_SECOND: Calendar.Clock := Calendar.Clock(Calendar.DateTime(2017, 2, 14, 21, 20, 11), 0)

  lemma GoBackFirstMarker()
    ensures Step(GO_BACK, true, Start) == Success(Decoded(TimeMark(GO_BACK_FIRST, 2, false), State(12, 2, 60, GO_BACK_FIRST)))
  {
    MarkerStep(GO_BACK, true, Start);
  }

  lemma GoBackFirstCount()
    ensures Step(GO_BACK, true, State(12, 2, 60, GO_BACK_FIRST)) ==
      Success(Decoded(Sample(GO_BACK_FIRST, 7, false), State(13, 2, 60, GO_BACK_FIRST.Plus(60))))
  {
    RawStep(GO_BACK, true, State(12, 2, 60, GO_BACK_FIRST));
  }

  lemma GoBackSecondMarker()
    ensures Step(GO_BACK, true, State(13, 2, 60, GO_BACK_FIRST.Plus(60))) ==
      Success(Decoded(TimeMark(GO_BACK_SECOND, 2, false), State(25, 2, 60, GO_BACK_SECOND)))
  {
    MarkerStep(GO_BACK, true, State(13, 2, 60, GO_BACK_FIRST.Plus(60)));
  }

  lemma GoBackSecondCount()
    ensures Step(GO_BACK, true, State(25, 2, 60, GO_BACK_SECOND)) ==
      Success(Decoded(Sample(GO_BACK_SECOND, 8, false), State(26, 2, 60, GO_BACK_SECOND.Plus(60))))
  {
    RawStep(GO_BACK, true, State(25, 2, 60, GO_BACK_SECOND));
  }

  /** A later marker may set the clock back, so count time stamps are ordered only between markers. */
  lemma MarkerMayGoBack()
    ensures var t := Decode(GO_BACK, true);
      && |t.records| == 4 && t.records[1].Sample? && t.records[3].Sample?
      && Calendar.Instant(t.records[3].at) < Calendar.Instant(t.records[1].at)
  {
    GoBackFirstMarker();
    GoBackFirstCount();
    GoBackSecondMarker();
    GoBackSecondCount();
    var s1 := State(12, 2, 60, GO_BACK_FIRST);
    var s2 := State(13, 2, 60, GO_BACK_FIRST.Plus(60));
    var s3 := State(25, 2, 60, GO_BACK_SECOND);
    var s4 := State(26, 2, 60, GO_BACK_SECOND.Plus(60));
    assert Run(GO_BACK, true, s4) == Trace([], Finished(s4));
    assert Run(GO_BACK, true, s3).records == [Sample(GO_BACK_SECOND, 8, false)];
    assert Run(GO_BACK, true, s2).records == [TimeMark(GO_BACK_SECOND, 2, false), Sample(GO_BACK_SECOND, 8, false)];
    assert Run(GO_BACK, true, s1).records ==
      [Sample(GO_BACK_FIRST, 7, false), TimeMark(GO_BACK_SECOND, 2, false), Sample(GO_BACK_SECOND, 8, false)];
  }
}
