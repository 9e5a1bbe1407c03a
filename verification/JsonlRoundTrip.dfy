/** What is appended can be read back: the writers of jsonl/store.go against the readers of jsonl/reader.go. */
module JsonlRoundTrip {
  import opened Machine
  import opened Sequences
  import opened JsonlLines
  import opened JsonlReader
  import opened JsonlStore
  import Async = JsonlAsync

  /** Append's line for a marshalled record; a marshalling error appends nothing. */
  predicate FromAppend(line: seq<byte>) {
    line != [] && line[|line| - 1] == LF && Marshalled(line[..|line| - 1])
  }

  function RecordOf(line: seq<byte>): Line
    requires line != []
  {
    line[..|line| - 1]
  }

  predicate AllAppends(ops: seq<Op>) {
    forall op <- ops :: op.WriteLine? ==> FromAppend(op.line)
  }

  /** The record a step writes on `date`, if it does. */
  function RecordAdded(c: Config, s: State, op: Op, date: string): seq<Line>
    requires Valid(c, s)
  {
    if Adds(c, s, op, date) == [] then [] else [RecordOf(op.line)]
  }

  /** The records written while the clock showed `date`, in order. */
  function RecordsOn(c: Config, s: State, ops: seq<Op>, date: string): seq<Line>
    requires Valid(c, s)
    decreases |ops|
  {
    if ops == [] then []
    else
      StepLogs(c, s, ops[0], date);
      RecordAdded(c, s, ops[0], date) + RecordsOn(c, Step(c, s, ops[0]), ops[1..], date)
  }

  lemma AddedIsFramed(c: Config, s: State, op: Op, date: string)
    requires Valid(c, s) && (op.WriteLine? ==> FromAppend(op.line))
    ensures Adds(c, s, op, date) == Framed(RecordAdded(c, s, op, date))
    ensures forall r <- RecordAdded(c, s, op, date) :: Marshalled(r)
  {
    if Adds(c, s, op, date) != [] {
      FlatMapOne(Frame, RecordOf(op.line));
      assert Frame(RecordOf(op.line)) == op.line;
    }
  }

  lemma {:induction false} WrittenIsFramed(c: Config, s: State, ops: seq<Op>, date: string)
    requires Valid(c, s) && AllAppends(ops)
    ensures Written(c, s, ops, date) == Framed(RecordsOn(c, s, ops, date))
    ensures forall r <- RecordsOn(c, s, ops, date) :: Marshalled(r)
    decreases |ops|
  {
    if ops != [] {
      StepLogs(c, s, ops[0], date);
      assert AllAppends(ops[1..]) && ops[0] in ops;
      WrittenIsFramed(c, Step(c, s, ops[0]), ops[1..], date);
      AddedIsFramed(c, s, ops[0], date);
      FlatMapAppend(Frame, RecordAdded(c, s, ops[0], date), RecordsOn(c, Step(c, s, ops[0]), ops[1..], date));
    }
  }

  // ------------------------------------------------ appending to what is there

  /** Empty, or ending with a newline. */
  predicate WholeLines(s: seq<byte>) {
    s == [] || s[|s| - 1] == LF
  }

  /** The pieces of whole lines end with an empty one, in whose place anything that follows goes. */
  lemma PiecesAfterWhole(front: seq<byte>, rest: seq<byte>) returns (ps: seq<Line>)
    requires WholeLines(front)
    ensures Pieces(front) == ps + [[]] && Pieces(front + rest) == ps + Pieces(rest)
  {
    PiecesNoNewline([]);
    if front == [] {
      ps := [];
      assert front + rest == rest;
    } else {
      var a := front[..|front| - 1];
      ps := Pieces(a);
      assert front == a + [LF] + [] && front + rest == a + [LF] + rest;
      PiecesAppend(a, []);
      PiecesAppend(a, rest);
    }
  }

  lemma KeptAfterWhole(front: seq<byte>, rest: seq<byte>)
    requires WholeLines(front)
    ensures Kept(front + rest, None) == Kept(front, None) + Kept(rest, None)
  {
    var ps := PiecesAfterWhole(front, rest);
    FlatMapAppend(Keeper(None), ps, [[]]);
    FlatMapOne(Keeper(None), []);
    FlatMapAppend(Keeper(None), ps, Pieces(rest));
  }

  lemma KeptFramed(records: seq<Line>)
    requires forall r <- records :: r != [] && NoNewline(r)
    ensures Kept(Framed(records), None) == records
  {
    PiecesOfFramed(records);
    KeepAll(records);
  }

  lemma {:induction false} ScannedAppend(ps: seq<Line>, qs: seq<Line>)
    requires !Overlong(ps)
    ensures Scanned(ps + qs, None) == Scanned(ps, None) + Scanned(qs, None)
  {
    if ps == [] {
      assert ps + qs == qs;
    } else {
      assert ps[0] in ps && forall p <- ps[1..] :: p in ps;
      ScannedAppend(ps[1..], qs);
      assert (ps + qs)[0] == ps[0] && (ps + qs)[1..] == ps[1..] + qs;
      Assoc(KeepOne(DropCr(ps[0]), None), Scanned(ps[1..], None), Scanned(qs, None));
    }
  }

  lemma ScannedEmpty()
    ensures Pieces([]) == [[]] && Scanned([[]], None) == []
  {
    PiecesNoNewline([]);
    assert Scanned([[]], None) == KeepOne([], None) + Scanned([], None);
  }

  lemma OverlongAppend(ps: seq<Line>, qs: seq<Line>)
    ensures Overlong(ps + qs) <==> Overlong(ps) || Overlong(qs)
  {
    assert forall p <- ps :: p in ps + qs;
    assert forall q <- qs :: q in ps + qs;
  }

  lemma ScannedInstead(ps: seq<Line>, qs: seq<Line>, none: seq<Line>, offered: seq<Line>)
    requires !Overlong(ps) && Scanned(none, None) == [] && Scanned(qs, None) == offered
    ensures Scanned(ps + qs, None) == Scanned(ps + none, None) + offered
  {
    var first := Scanned(ps, None);
    assert Scanned(ps + none, None) == first + [] by {
      ScannedAppend(ps, none);
    }
    assert first + [] == first;
    ScannedAppend(ps, qs);
  }

  /** After whole lines the forward scan offers what it did and then the records. */
  lemma ScannedAfterWhole(front: seq<byte>, records: seq<Line>)
    requires WholeLines(front) && !Overlong(Pieces(front)) && forall r <- records :: Marshalled(r)
    ensures Scanned(Pieces(front + Framed(records)), None) == Scanned(Pieces(front), None) + records
    ensures !Overlong(Pieces(front + Framed(records)))
  {
    RoundTrip(records, 0);
    var qs := Pieces(Framed(records));
    var ps := PiecesAfterWhole(front, Framed(records));
    OverlongAppend(ps, [[]]);
    OverlongAppend(ps, qs);
    ScannedEmpty();
    ScannedInstead(ps, qs, [[]], records);
  }

  /** A file that does not end with a newline is whole lines and a torn one. */
  lemma {:induction false} TornTail(s: seq<byte>) returns (front: seq<byte>, tail: Line)
    requires !WholeLines(s)
    ensures s == front + tail && WholeLines(front) && tail != [] && NoNewline(tail)
  {
    var n := |s| - 1;
    if WholeLines(s[..n]) {
      front, tail := s[..n], s[n..];
    } else {
      front, tail := TornTail(s[..n]);
      assert s == front + (tail + [s[n]]);
      tail := tail + [s[n]];
    }
  }

  lemma KeptTorn(front: seq<byte>, tail: Line)
    requires WholeLines(front) && tail != [] && NoNewline(tail)
    ensures Kept(front + tail, None) == Kept(front, None) + [tail]
  {
    KeptAfterWhole(front, tail);
    KeptOneLine(tail, None);
  }

  /** After a torn line the first record is joined to it. */
  lemma KeptAfterTorn(front: seq<byte>, tail: Line, first: Line, rest: seq<Line>)
    requires WholeLines(front) && tail != [] && NoNewline(tail)
    requires Marshalled(first) && forall r <- rest :: Marshalled(r)
    ensures Kept(front + tail + Framed([first] + rest), None) == Kept(front, None) + ([tail + first] + rest)
  {
    var joined := [tail + first] + rest;
    KeptFramed(joined);
    FramedJoined(tail, first, rest);
    Assoc(front, tail, Framed([first] + rest));
    KeptAfterWhole(front, Framed(joined));
  }

  lemma FramedJoined(tail: Line, first: Line, rest: seq<Line>)
    ensures tail + Framed([first] + rest) == Framed([tail + first] + rest)
  {
    FlatMapAppend(Frame, [first], rest);
    FlatMapOne(Frame, first);
    FlatMapAppend(Frame, [tail + first], rest);
    FlatMapOne(Frame, tail + first);
    assert Frame(tail + first) == tail + Frame(first);
    Assoc(tail, Frame(first), Framed(rest));
  }

  /**
   * Records appended to what a file holds already are read back, each as a line of its own, if and only if
   * the file was empty or ended with a newline. After a torn line, as a crash with a half-flushed buffer
   * leaves it, there is one line too few.
   */
  lemma AppendedReadBack(held: seq<byte>, records: seq<Line>)
    requires records != [] && forall r <- records :: Marshalled(r)
    ensures Kept(held + Framed(records), None) == Kept(held, None) + records <==> WholeLines(held)
    ensures |Kept(held + Framed(records), None)| == |Kept(held, None)| + |records| - if WholeLines(held) then 0 else 1
  {
    if WholeLines(held) {
      KeptAfterWhole(held, Framed(records));
      KeptFramed(records);
    } else {
      var front, tail := TornTail(held);
      assert records == [records[0]] + records[1..] && records[0] in records
             && forall r <- records[1..] :: r in records;
      KeptTorn(front, tail);
      KeptAfterTorn(front, tail, records[0], records[1..]);
    }
  }

  /** A record after a torn line. */
  lemma TornLineJoined()
    ensures Kept([65] + Framed([[66]]), None) == [[65, 66]]
  {
    KeptAfterTorn([], [65], [66], []);
    assert [] + [65] + Framed([[66]]) == [65] + Framed([[66]]) && [[66]] + [] == [[66]];
    KeptOneLine([], None);
    assert [65] + [66] == [65, 66] && [[65, 66]] + [] == [[65, 66]];
  }

  /** What a file must read as after `records` have been appended to `before`. */
  ghost predicate ReadsBack(before: seq<byte>, records: seq<Line>, file: seq<byte>, n: int) {
    && file == before + Framed(records)
    && (WholeLines(before) ==>
          && Kept(file, None) == Kept(before, None) + records
          && Newest(file, n, None) == Take(n, Reverse(records) + Reverse(Kept(before, None))))
    && (WholeLines(before) && !Overlong(Pieces(before)) ==>
          Scanned(Pieces(file), None) == Scanned(Pieces(before), None) + records && !Overlong(Pieces(file)))
    && (records != [] ==> (Kept(file, None) == Kept(before, None) + records <==> WholeLines(before)))
  }

  lemma FramedReadsBack(before: seq<byte>, records: seq<Line>, n: int)
    requires forall r <- records :: Marshalled(r)
    ensures ReadsBack(before, records, before + Framed(records), n)
  {
    if records != [] {
      AppendedReadBack(before, records);
    }
    if WholeLines(before) {
      KeptAfterWhole(before, Framed(records));
      KeptFramed(records);
      ReverseAppend(Kept(before, None), records);
      if !Overlong(Pieces(before)) {
        ScannedAfterWhole(before, records);
      }
    }
  }

  /** In a file that was empty the records are all there is. */
  lemma EmptyReadsBack(records: seq<Line>, file: seq<byte>, n: int)
    requires ReadsBack([], records, file, n)
    ensures Scanned(Pieces(file), None) == records && Newest(file, n, None) == Take(n, Reverse(records))
  {
    ScannedEmpty();
    KeptOneLine([], None);
    assert Reverse(records) + [] == Reverse(records);
  }

  /**
   * After any appends, flushes and day changes and a final Close, the file of a date reads forward as what
   * was logged for the date before and then exactly the records appended on it, and backward as the last
   * `n` of the same list reversed, provided that what was there did not end with a torn line; and only then.
   */
  lemma AppendsReadBack(c: Config, s: State, ops: seq<Op>, date: string, n: int)
    requires Valid(c, s) && AllAppends(ops)
    ensures var file := OnDisk(Run(c, s, ops + [Close]).disk, c.naming.FileName(date));
            ReadsBack(Logged(c, s, date), RecordsOn(c, s, ops, date), file, n)
  {
    ClosedIsOnDisk(c, s, ops, date);
    WrittenIsFramed(c, s, ops, date);
    FramedReadsBack(Logged(c, s, date), RecordsOn(c, s, ops, date), n);
  }

  // ---------------------------------------------------------- asynchronously

  /** The records that were written on `date`, in order. */
  function OnDay(records: seq<Line>, outcomes: seq<Async.Outcome>, date: string): seq<Line>
    requires |records| == |outcomes|
  {
    if records == [] then []
    else (if outcomes[0].date == Some(date) then [records[0]] else []) + OnDay(records[1..], outcomes[1..], date)
  }

  lemma {:induction false} OnDayFramed(records: seq<Line>, outcomes: seq<Async.Outcome>, date: string)
    requires |records| == |outcomes|
    requires forall i | 0 <= i < |records| :: outcomes[i].line == Frame(records[i])
    ensures Async.WrittenOn(outcomes, date) == Framed(OnDay(records, outcomes, date))
    ensures forall r <- OnDay(records, outcomes, date) :: r in records
  {
    if records != [] {
      OnDayFramed(records[1..], outcomes[1..], date);
      var own: seq<Line> := if outcomes[0].date == Some(date) then [records[0]] else [];
      FlatMapAppend(Frame, own, OnDay(records[1..], outcomes[1..], date));
      FlatMapOne(Frame, records[0]);
    }
  }

  /** Some Close has returned, and what has been accepted are these records. */
  ghost predicate ClosedWith(s: Async.System, id: nat, records: seq<Line>) {
    && id in s.closers && s.closers[id].Returned? && |records| == |s.accepted|
    && forall i | 0 <= i < |records| :: s.accepted[i] == Frame(records[i]) && Marshalled(records[i])
  }

  /**
   * In asynchronous mode, whatever the interleaving and however many days it takes: once a Close has
   * returned, each day's file reads back as what it held and then the accepted records written on that
   * day, in the order they were accepted.
   */
  lemma AcceptedReadBack(c: Config, size: nat, init: State, steps: seq<Async.Step>, id: nat, records: seq<Line>,
                         date: string, n: int)
    requires Valid(c, init) && ClosedWith(Async.Exec(c, size, init, steps), id, records)
    ensures var s := Async.Exec(c, size, init, steps);
            && |s.outcomes| == |records|
            && ReadsBack(Logged(c, init, date), OnDay(records, s.outcomes, date),
                         OnDisk(s.store.disk, c.naming.FileName(date)), n)
            && (Async.AllOpen(steps) ==> forall o <- s.outcomes :: o.date.Some?)
  {
    var s := Async.Exec(c, size, init, steps);
    Async.ClosedMeansWritten(c, size, init, steps, id, date);
    assert |Async.Lines(s.outcomes)| == |s.outcomes|;
    forall i | 0 <= i < |records| ensures s.outcomes[i].line == Frame(records[i]) {
      assert Async.Lines(s.outcomes)[i] == s.outcomes[i].line;
    }
    OnDayFramed(records, s.outcomes, date);
    forall r | r in OnDay(records, s.outcomes, date) ensures Marshalled(r) {
      var i :| 0 <= i < |records| && records[i] == r;
    }
    FramedReadsBack(Logged(c, init, date), OnDay(records, s.outcomes, date), n);
  }

  lemma {:induction false} AllOnDay(records: seq<Line>, outcomes: seq<Async.Outcome>, date: string)
    requires |records| == |outcomes| && forall o <- outcomes :: o.date == Some(date)
    ensures OnDay(records, outcomes, date) == records
  {
    if records != [] {
      assert outcomes[0] in outcomes;
      AllOnDay(records[1..], outcomes[1..], date);
    }
  }

  lemma OneDayOutcomes(c: Config, size: nat, init: State, steps: seq<Async.Step>, date: string)
    requires Valid(c, init) && forall step <- steps :: step.WriteOut? ==> step.canOpen && step.today == date
    ensures forall o <- Async.Exec(c, size, init, steps).outcomes :: o.date == Some(date)
  {
    Async.OutcomesDated(c, size, init, steps);
    forall o | o in Async.Exec(c, size, init, steps).outcomes ensures o.date == Some(date) {
      assert Async.DatedBy(steps, o);
    }
  }

  /** When the clock shows one day at every write and its file can be opened, that file has all of them. */
  lemma OneDayReadBack(c: Config, size: nat, init: State, steps: seq<Async.Step>, id: nat, records: seq<Line>,
                       date: string, n: int)
    requires Valid(c, init) && ClosedWith(Async.Exec(c, size, init, steps), id, records)
    requires forall step <- steps :: step.WriteOut? ==> step.canOpen && step.today == date
    ensures ReadsBack(Logged(c, init, date), records,
                      OnDisk(Async.Exec(c, size, init, steps).store.disk, c.naming.FileName(date)), n)
  {
    var s := Async.Exec(c, size, init, steps);
    AcceptedReadBack(c, size, init, steps, id, records, date, n);
    OneDayOutcomes(c, size, init, steps, date);
    AllOnDay(records, s.outcomes, date);
  }
}
