/**
 * The lines `analyse` writes to the screen, the report file and the GUI
 * form, as values rather than formatted text. Both versions share the
 * vocabulary; their wording differs slightly (noted per line).
 */
module Sink {
  import opened Bytes
  import Calendar
  import Decoder

  datatype Line =
    | CountLine(at: Calendar.Clock, count: nat)
      // "{datenow:%Y-%m-%d %H:%M:%S} {ccount:5d}"
    | IntervalChanged(idcpm: nat)
      // "* Time interval changed (0: off, 1: sec, 2: min, 3: hour): {idcpm}"
    | IntervalOff
      // "time interval off"
    | TimeTag(at: Calendar.Clock, idcpm: nat)
      // "* Time tag found: {datenow} {idcpm}", or "* {datenow} Dev. Timetag;  {idcpm}"
    | NoEndMarker
      // "No date/time endmarker found; treat markers as counting data"
    | IdTagFound(text: seq<byte>)
      // "* Tag found: {strg}", or "* ID tag: {strg}"
    | NoDateWarning
      // "No date/time tag found. Valid data?"
    | InvalidFile
      // "Invalid data file (> 16 * 4096)"
    | Done
      // "*** done ***"

  /** The count line of every sample, in order. */
  function SampleLines(recs: seq<Decoder.Record>): seq<Line>
  {
    if recs == [] then []
    else SampleLines(recs[..|recs| - 1]) + SampleLine(recs[|recs| - 1])
  }

  function SampleLine(r: Decoder.Record): seq<Line>
  {
    if r.Sample? then [CountLine(r.at, r.value)] else []
  }

  /** The count lines among `lines`, in order. */
  function Counts(lines: seq<Line>): seq<Line>
  {
    if lines == [] then []
    else Counts(lines[..|lines| - 1]) + (if lines[|lines| - 1].CountLine? then [lines[|lines| - 1]] else [])
  }

  lemma {:induction false} CountsAppend(a: seq<Line>, b: seq<Line>)
    ensures Counts(a + b) == Counts(a) + Counts(b)
    decreases |b|
  {
    if b == [] {
      assert a + b == a;
    } else {
      assert (a + b)[..|a + b| - 1] == a + b[..|b| - 1];
      CountsAppend(a, b[..|b| - 1]);
    }
  }

  lemma {:induction false} NoCounts(lines: seq<Line>)
    requires forall l :: l in lines ==> !l.CountLine?
    ensures Counts(lines) == []
  {
    if lines != [] {
      NoCounts(lines[..|lines| - 1]);
    }
  }

  lemma AppendAssociative(a: seq<Line>, b: seq<Line>, c: seq<Line>)
    ensures (a + b) + c == a + (b + c)
  {
  }

  /** Every line of `SampleLines` is a count line, one per sample, carrying its time stamp and value. */
  lemma {:induction false} SampleLinesMeaning(recs: seq<Decoder.Record>)
    ensures Counts(SampleLines(recs)) == SampleLines(recs)
    ensures |SampleLines(recs)| == Decoder.SampleCount(recs)
  {
    if recs != [] {
      var init := recs[..|recs| - 1];
      SampleLinesMeaning(init);
      CountsAppend(SampleLines(init), SampleLine(recs[|recs| - 1]));
    }
  }
}
