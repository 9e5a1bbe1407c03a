/** Forward readers over many day files: ScanSince and DecodeSince. */
module JsonlScan {
  import opened Sequences
  import opened Calendar
  import opened JsonlLines
  import opened JsonlReader
  import opened JsonlNaming
  import opened JsonlFilter

  /** The files of the store's directory by name; a name without an entry is missing. */
  type Folder = map<string, File>

  function Open(dir: Folder, name: string): File {
    if name in dir then dir[name] else Missing
  }

  /** Scanning the files of `dates` in turn. A handler's false ends its file only; an error ends the scan. */
  function ScanDates(dir: Folder, n: Naming, dates: seq<string>, f: Filter, h: Handler, seen: seq<Line>)
    : (Option<Error>, seq<Line>)
  {
    if dates == [] then (None, seen)
    else
      var (err, seen') := ScanResult(Open(dir, n.FileName(dates[0])), f, h, seen);
      if err.Some? then (err, seen') else ScanDates(dir, n, dates[1..], f, h, seen')
  }

  /** The days a scan reads, by number: from the cutoff's to today's, or the cutoff's alone when that is later. */
  function ScanDays(cutoff: int, now: int, offset: int): seq<string> {
    DayNames(DayOf(cutoff, offset), DayOf(RangeEnd(cutoff, now), offset))
  }

  method ScanSince(dir: Folder, n: Naming, cutoff: int, now: int, offset: int, ts: TsField, extra: Filter, h: Handler)
    returns (err: Option<Error>, seen: seq<Line>)
    ensures (err, seen) == ScanDates(dir, n, ScanDays(cutoff, now, offset), And([TsGte(ts, cutoff), extra]), h, [])
  {
    var dates := DaysInRange(cutoff, now, offset);
    var combined := And([TsGte(ts, cutoff), extra]);
    seen := [];
    var i := 0;
    while i < |dates|
      invariant 0 <= i <= |dates|
      invariant ScanDates(dir, n, dates, combined, h, []) == ScanDates(dir, n, dates[i..], combined, h, seen)
    {
      err, seen := ScanFile(Open(dir, n.FileName(dates[i])), combined, h, seen);
      if err.Some? {
        return;
      }
      assert dates[i..][1..] == dates[i + 1..];
      i := i + 1;
    }
    return None, seen;
  }

  // --------------------------------------------------- what a scan visits

  /** A handler that never stops. */
  predicate Always(seen: seq<Line>) {
    true
  }

  /** The file can be opened and scanned to its end. */
  predicate Sound(file: File) {
    !file.Unopenable? && !Overlong(Pieces(Front(file))) && !Broken(file)
  }

  /** So can every file of `dates`. */
  predicate Readable(dir: Folder, n: Naming, dates: seq<string>) {
    forall d <- dates :: Sound(Open(dir, n.FileName(d)))
  }

  /** The lines of one day's file that a forward scan offers. */
  function DayLines(dir: Folder, n: Naming, date: string, f: Filter): seq<Line> {
    Scanned(Pieces(Front(Open(dir, n.FileName(date)))), f)
  }

  function DayReader(dir: Folder, n: Naming, f: Filter): string -> seq<Line> {
    (date: string) => DayLines(dir, n, date, f)
  }

  /** The lines of all the files of `dates`, in scan order. */
  function LogLines(dir: Folder, n: Naming, dates: seq<string>, f: Filter): seq<Line> {
    FlatMap(DayReader(dir, n, f), dates)
  }

  lemma {:induction false} FeedAlways(lines: seq<Line>, seen: seq<Line>)
    ensures Feed(lines, Always, seen) == Fed(seen + lines, false)
  {
    if lines == [] {
      assert seen + lines == seen;
    } else {
      FeedAlways(lines[1..], seen + [lines[0]]);
      assert seen + lines == seen + [lines[0]] + lines[1..];
    }
  }

  lemma {:induction false} FeedGrows(lines: seq<Line>, h: Handler, seen: seq<Line>)
    ensures |Feed(lines, h, seen).seen| >= |seen|
    ensures |Feed(lines, h, seen).seen| == |seen| <==> lines == []
  {
    if lines != [] {
      FeedGrows(lines[1..], h, seen + [lines[0]]);
    }
  }

  lemma ScanOneFile(file: File, f: Filter, seen: seq<Line>)
    requires Sound(file)
    ensures ScanResult(file, f, Always, seen) == (None, seen + Scanned(Pieces(Front(file)), f))
  {
    FeedAlways(Scanned(Pieces(Front(file)), f), seen);
  }

  /** A handler that never stops is given every line of every file, in order. */
  lemma {:induction false} ScanVisitsAll(dir: Folder, n: Naming, dates: seq<string>, f: Filter, seen: seq<Line>)
    requires Readable(dir, n, dates)
    ensures ScanDates(dir, n, dates, f, Always, seen) == (None, seen + LogLines(dir, n, dates, f))
  {
    if dates == [] {
      assert seen + [] == seen;
    } else {
      assert dates[0] in dates;
      ScanOneFile(Open(dir, n.FileName(dates[0])), f, seen);
      ScanVisitsAll(dir, n, dates[1..], f, seen + DayLines(dir, n, dates[0], f));
      Assoc(seen, DayLines(dir, n, dates[0], f), LogLines(dir, n, dates[1..], f));
    }
  }

  /** What the files of `dates` have to offer, up to the first that cannot be scanned to its end. */
  function Offered(dir: Folder, n: Naming, dates: seq<string>, f: Filter): seq<Line> {
    if dates == [] then []
    else
      var lines := DayLines(dir, n, dates[0], f);
      if Sound(Open(dir, n.FileName(dates[0]))) then lines + Offered(dir, n, dates[1..], f) else lines
  }

  /** What one file adds to a scan, and whether the scan goes on. */
  lemma OneFile(file: File, f: Filter, h: Handler, seen: seq<Line>)
    ensures var fed := Feed(Scanned(Pieces(Front(file)), f), h, seen);
            && ScanResult(file, f, h, seen).1 == fed.seen
            && (ScanResult(file, f, h, seen).0.None? <==> fed.stopped || Sound(file))
            && (!fed.stopped && !Sound(file) ==>
                ScanResult(file, f, h, seen).0 ==
                Some(if file.Unopenable? then OpenFailed else if Overlong(Pieces(Front(file))) then TooLong
                     else ReadFailed))
  {
    if file.Unopenable? {
      PiecesNoNewline([]);
      assert Scanned([[]], f) == KeepOne([], f) + Scanned([], f);
    }
  }

  /** A handler that stops, or a file read to its end, lets the scan go on; any other file ends it with its error. */
  lemma ScanStep(dir: Folder, n: Naming, d: string, later: seq<string>, f: Filter, h: Handler, seen: seq<Line>)
    ensures var fed := Feed(DayLines(dir, n, d, f), h, seen);
            if fed.stopped || Sound(Open(dir, n.FileName(d)))
            then ScanDates(dir, n, [d] + later, f, h, seen) == ScanDates(dir, n, later, f, h, fed.seen)
            else
              var file := Open(dir, n.FileName(d));
              ScanDates(dir, n, [d] + later, f, h, seen) ==
              (Some(if file.Unopenable? then OpenFailed else if Overlong(Pieces(Front(file))) then TooLong
                    else ReadFailed), fed.seen)
  {
    OneFile(Open(dir, n.FileName(d)), f, h, seen);
    assert ([d] + later)[1..] == later;
  }

  /** A scan's handler is called again if and only if there is a line to offer it. */
  lemma {:induction false} ScanCallsHandler(dir: Folder, n: Naming, dates: seq<string>, f: Filter, h: Handler,
                                            seen: seq<Line>)
    ensures |ScanDates(dir, n, dates, f, h, seen).1| >= |seen|
    ensures ScanDates(dir, n, dates, f, h, seen).1 == seen <==> Offered(dir, n, dates, f) == []
  {
    if dates != [] {
      var lines := DayLines(dir, n, dates[0], f);
      var fed := Feed(lines, h, seen);
      FeedGrows(lines, h, seen);
      ScanStep(dir, n, dates[0], dates[1..], f, h, seen);
      assert dates == [dates[0]] + dates[1..];
      ScanCallsHandler(dir, n, dates[1..], f, h, fed.seen);
    }
  }

  /**
   * A handler's false ends only the file being read: the scan goes on with the later files. It has
   * ended the scan, in effect, if and only if those have no line to offer.
   */
  lemma StopEndsOneFile(dir: Folder, n: Naming, d: string, later: seq<string>, f: Filter, h: Handler, seen: seq<Line>)
    requires Feed(DayLines(dir, n, d, f), h, seen).stopped
    ensures var atStop := Feed(DayLines(dir, n, d, f), h, seen).seen;
            && ScanDates(dir, n, [d] + later, f, h, seen) == ScanDates(dir, n, later, f, h, atStop)
            && (ScanDates(dir, n, [d] + later, f, h, seen).1 == atStop <==> Offered(dir, n, later, f) == [])
  {
    ScanStep(dir, n, d, later, f, h, seen);
    ScanCallsHandler(dir, n, later, f, h, Feed(DayLines(dir, n, d, f), h, seen).seen);
  }

  /** A handler that always answers false. */
  predicate Never(seen: seq<Line>) {
    false
  }

  /** Two files of one line each: the handler answers false and is called again. */
  lemma StoppedHandlerCalledAgain()
    ensures var n, dir := Naming("", "", ""), map["a" := Present([65], {}, None), "b" := Present([66], {}, None)];
            && Feed(DayLines(dir, n, "a", None), Never, []) == Fed([[65]], true)
            && ScanDates(dir, n, ["a", "b"], None, Never, []) == (None, [[65], [66]])
  {
    var n, dir := Naming("", "", ""), map["a" := Present([65], {}, None), "b" := Present([66], {}, None)];
    assert n.FileName("a") == "a" && n.FileName("b") == "b";
    OneLineDay(dir, n, "a", [65]);
    OneLineDay(dir, n, "b", [66]);
    ScanStep(dir, n, "a", ["b"], None, Never, []);
    ScanStep(dir, n, "b", [], None, Never, [[65]]);
    assert ["a"] + ["b"] == ["a", "b"] && ["b"] + [] == ["b"];
    assert [[65]] + [[66]] == [[65], [66]];
    assert Feed([[66]], Never, [[65]]) == Fed([[65], [66]], true);
    assert ScanDates(dir, n, [], None, Never, [[65], [66]]) == (None, [[65], [66]]);
  }

  lemma OneLineDay(dir: Folder, n: Naming, date: string, line: Line)
    requires Open(dir, n.FileName(date)) == Present(line, {}, None)
    requires NoNewline(line) && line != [] && |line| < MAX_LINE && DropCr(line) == line
    ensures DayLines(dir, n, date, None) == [line]
  {
    PiecesNoNewline(line);
    assert Scanned([line], None) == KeepOne(line, None) + Scanned([], None);
  }

  /** Filtering while scanning is filtering what an unfiltered scan offers. */
  lemma {:induction false} ScannedFilter(ps: seq<Line>, f: Filter)
    ensures Scanned(ps, f) == Keep(Scanned(ps, None), f)
  {
    if ps != [] && |ps[0]| < MAX_LINE {
      var line := DropCr(ps[0]);
      ScannedFilter(ps[1..], f);
      FlatMapAppend(Keeper(f), KeepOne(line, None), Scanned(ps[1..], None));
      FlatMapOne(Keeper(f), line);
    }
  }

  /** So scanning a log with a filter is filtering the whole log. */
  lemma LogLinesFilter(dir: Folder, n: Naming, dates: seq<string>, f: Filter)
    ensures LogLines(dir, n, dates, f) == Keep(LogLines(dir, n, dates, None), f)
  {
    forall d ensures DayLines(dir, n, d, f) == Keep(DayLines(dir, n, d, None), f) {
      ScannedFilter(Pieces(Front(Open(dir, n.FileName(d)))), f);
    }
    FlatMapTwice(DayReader(dir, n, None), Keeper(f), DayReader(dir, n, f), dates);
  }

  /** Records are filed under their own timestamp's date, in the files of days `lo` to `hi`. */
  predicate FiledByDate(dir: Folder, n: Naming, ts: TsField, offset: int, lo: int, hi: int) {
    forall day | lo <= day <= hi ::
      forall line <- DayLines(dir, n, DayName(day), None) ::
        var t := ParseTimestamp(line, ts);
        t.Some? ==> DayOf(t.value, offset) == day
  }

  /** Nothing at or after the cutoff is filed under an earlier day. */
  lemma EarlierDayEmpty(dir: Folder, n: Naming, ts: TsField, offset: int, cutoff: int, extra: Filter, date: string,
                        day: int)
    requires ts.path != "" && day < DayOf(cutoff, offset)
    requires forall line <- DayLines(dir, n, date, None) ::
               var t := ParseTimestamp(line, ts);
               t.Some? ==> DayOf(t.value, offset) == day
    ensures DayLines(dir, n, date, And([TsGte(ts, cutoff), extra])) == []
  {
    var f, lines := And([TsGte(ts, cutoff), extra]), DayLines(dir, n, date, None);
    ScannedFilter(Pieces(Front(Open(dir, n.FileName(date)))), f);
    forall line | line in lines ensures KeepOne(line, f) == [] {
      TooEarly(ts, offset, cutoff, line, day);
      SinceFilter(ts, cutoff, extra, line);
    }
    FlatMapNothing(Keeper(f), lines);
  }

  lemma EarlierDaysEmpty(dir: Folder, n: Naming, ts: TsField, offset: int, cutoff: int, extra: Filter, lo: int, hi: int)
    requires ts.path != "" && hi < DayOf(cutoff, offset)
    requires FiledByDate(dir, n, ts, offset, lo, hi)
    ensures LogLines(dir, n, DayNames(lo, hi), And([TsGte(ts, cutoff), extra])) == []
  {
    var f, dates := And([TsGte(ts, cutoff), extra]), DayNames(lo, hi);
    forall date | date in dates ensures DayReader(dir, n, f)(date) == [] {
      var i :| 0 <= i < |dates| && dates[i] == date;
      EarlierDayEmpty(dir, n, ts, offset, cutoff, extra, DayName(lo + i), lo + i);
    }
    FlatMapNothing(DayReader(dir, n, f), dates);
  }

  lemma TooEarly(ts: TsField, offset: int, cutoff: int, line: Line, day: int)
    requires ts.path != "" && day < DayOf(cutoff, offset)
    requires ParseTimestamp(line, ts).Some? ==> DayOf(ParseTimestamp(line, ts).value, offset) == day
    ensures !Passes(TsGte(ts, cutoff), line)
  {
    var t := ParseTimestamp(line, ts);
    if t.Some? {
      DayMonotone(cutoff, t.value, offset);
    }
  }

  /**
   * When records are filed by date, the scan from a cutoff visits exactly what filtering the whole
   * log up to the same last day would keep: the lines stamped at or after the cutoff that pass
   * `extra`, once each, in log order.
   */
  lemma ScanSinceIsFullScan(dir: Folder, n: Naming, ts: TsField, offset: int, cutoff: int, now: int, extra: Filter,
                            first: int)
    requires ts.path != "" && first <= DayOf(cutoff, offset)
    requires FiledByDate(dir, n, ts, offset, first, DayOf(RangeEnd(cutoff, now), offset))
    requires Readable(dir, n, ScanDays(cutoff, now, offset))
    ensures var f, last := And([TsGte(ts, cutoff), extra]), DayOf(RangeEnd(cutoff, now), offset);
            ScanDates(dir, n, ScanDays(cutoff, now, offset), f, Always, [])
            == (None, Keep(LogLines(dir, n, DayNames(first, last), None), f))
  {
    var f, last := And([TsGte(ts, cutoff), extra]), DayOf(RangeEnd(cutoff, now), offset);
    var mid := DayOf(cutoff, offset);
    DayMonotone(cutoff, RangeEnd(cutoff, now), offset);
    RangeSplit(DayName, first, mid, last);
    EarlierDaysEmpty(dir, n, ts, offset, cutoff, extra, first, mid - 1);
    FlatMapAppend(DayReader(dir, n, f), DayNames(first, mid - 1), DayNames(mid, last));
    LogLinesFilter(dir, n, DayNames(first, last), f);
    ScanVisitsAll(dir, n, DayNames(mid, last), f, []);
  }

  /** The filter of a scan since `cutoff`: stamped, not before the cutoff, and passing `extra`. */
  lemma SinceFilter(ts: TsField, cutoff: int, extra: Filter, line: Line)
    requires ts.path != ""
    ensures Passes(And([TsGte(ts, cutoff), extra]), line) <==>
              ParseTimestamp(line, ts).Some? && ParseTimestamp(line, ts).value >= cutoff && Passes(extra, line)
    ensures Passes(And([TsGte(ts, cutoff), extra]), line) <==>
              && Passes(extra, line)
              && match ts.get(line)
                 case Number(n) => n >= cutoff
                 case Text(time) => time.Some? && time.value >= cutoff
                 case Other => false
  {
    var fs := [TsGte(ts, cutoff), extra];
    AndPasses(fs, line);
    assert fs[0] in fs && fs[1] in fs;
  }

  method DecodeSince<T>(dir: Folder, n: Naming, cutoff: int, now: int, offset: int, ts: TsField, extra: Filter,
                        dec: Decoder<T>)
    returns (out: seq<T>, err: Option<Error>)
    ensures var scan := ScanDates(dir, n, ScanDays(cutoff, now, offset), And([TsGte(ts, cutoff), extra]), Always, []);
            err == scan.0 && out == Decoded(dec, scan.1)
  {
    var lines;
    err, lines := ScanSince(dir, n, cutoff, now, offset, ts, extra, Always);
    out := DecodeAll(dec, lines);
  }
}
