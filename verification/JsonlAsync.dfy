/** The asynchronous writer: producers, the worker, its ticker, flushing callers and any number of Close calls. */
module JsonlAsync {
  import opened Machine
  import opened Sequences
  import opened JsonlLines
  import opened JsonlStore

  /** Where the worker of runAsync is. */
  datatype Worker = Selecting | Writing(line: seq<byte>) | Draining | Stopped

  /** Where a Close call is: inside once.Do, waiting for the worker; at the lock; done. */
  datatype Closer = Waiting | Locking | Returned

  /** The state of sync.Once: its function not started, running in one caller, or finished. */
  datatype Once = Fresh | Running | Finished

  /** A written line with the date it was written on, or none when that day's file could not be opened. */
  datatype Outcome = Outcome(line: seq<byte>, date: Option<string>)

  datatype System = System(
    store: State,
    ch: seq<seq<byte>>,
    closed: bool,
    worker: Worker,
    once: Once,
    closers: map<nat, Closer>,
    accepted: seq<seq<byte>>,
    outcomes: seq<Outcome>)

  /** One atomic step of some goroutine. A step that is not possible in a state leaves it as it is. */
  datatype Step =
    | Append(line: seq<byte>)
    | Receive
    | WriteOut(today: string, canOpen: bool)
    | Tick
    | FinalFlush
    | CallerFlush
    | BeginClose(id: nat)
    | JoinClose(id: nat)
    | OnceDone(id: nat)
    | FinishClose(id: nat)

  function Start(store: State): System {
    System(store, [], false, Selecting, Fresh, map[], [], [])
  }

  /** Whether the non-blocking send of Append succeeds. */
  predicate Accepts(size: nat, s: System) {
    !s.closed && |s.ch| < size
  }

  function Next(c: Config, size: nat, s: System, step: Step): System
    requires Valid(c, s.store)
  {
    match step
    case Append(line) =>
      if Accepts(size, s) then s.(ch := s.ch + [line], accepted := s.accepted + [line]) else s
    case Receive =>
      if s.worker.Selecting? && s.ch != [] then s.(ch := s.ch[1..], worker := Writing(s.ch[0]))
      else if s.worker.Selecting? && s.closed then s.(worker := Draining)
      else s
    case WriteOut(today, canOpen) =>
      if s.worker.Writing? then
        var (store, ok) := Write(c, s.store, today, canOpen, s.worker.line);
        s.(store := store, worker := Selecting,
           outcomes := s.outcomes + [Outcome(s.worker.line, if ok then Some(today) else None)])
      else s
    case Tick =>
      if s.worker.Selecting? then s.(store := Flushed(s.store)) else s
    case FinalFlush =>
      if s.worker.Draining? then s.(store := Flushed(s.store), worker := Stopped) else s
    case CallerFlush =>
      s.(store := Flushed(s.store))
    case BeginClose(id) =>
      if id !in s.closers && s.once.Fresh? then
        s.(once := Running, closed := true, closers := s.closers[id := Waiting])
      else s
    case JoinClose(id) =>
      if id !in s.closers && s.once.Finished? then s.(closers := s.closers[id := Locking]) else s
    case OnceDone(id) =>
      if id in s.closers && s.closers[id].Waiting? && s.worker.Stopped? then
        s.(once := Finished, closers := s.closers[id := Locking])
      else s
    case FinishClose(id) =>
      if id in s.closers && s.closers[id].Locking? then
        s.(store := CloseFile(s.store), closers := s.closers[id := Returned])
      else s
  }

  function Lines(outcomes: seq<Outcome>): seq<seq<byte>> {
    seq(|outcomes|, i requires 0 <= i < |outcomes| => outcomes[i].line)
  }

  function InHand(w: Worker): seq<seq<byte>> {
    if w.Writing? then [w.line] else []
  }

  function OnDate(date: string): Outcome -> seq<byte> {
    (o: Outcome) => if o.date == Some(date) then o.line else []
  }

  /** The bytes of the lines written on `date`. */
  function WrittenOn(outcomes: seq<Outcome>, date: string): seq<byte> {
    FlatMap(OnDate(date), outcomes)
  }

  /** The queue: what was written, what the worker holds and what is queued are the accepted lines, in order. */
  predicate QueueInv(size: nat, s: System) {
    && Lines(s.outcomes) + InHand(s.worker) + s.ch == s.accepted
    && |s.ch| <= size
  }

  /** The close handshake. */
  predicate CloseInv(s: System) {
    && (s.closed <==> !s.once.Fresh?)
    && (s.closers != map[] ==> s.closed)
    && (s.worker.Draining? || s.worker.Stopped? ==> s.closed && s.ch == [])
    && (s.worker.Stopped? ==> Buffered(s.store) == [])
    && (s.once.Finished? ==> s.worker.Stopped?)
    && (forall id <- s.closers :: !s.closers[id].Waiting? ==> s.once.Finished?)
  }

  /** Every date's log is what was there at the start and the lines written on it since. */
  ghost predicate LogInv(c: Config, init: State, s: System) {
    && Valid(c, s.store)
    && forall date :: Logged(c, s.store, date) == Logged(c, init, date) + WrittenOn(s.outcomes, date)
  }

  ghost predicate Inv(c: Config, size: nat, init: State, s: System) {
    QueueInv(size, s) && CloseInv(s) && LogInv(c, init, s)
  }

  lemma StartInv(c: Config, size: nat, init: State)
    requires Valid(c, init)
    ensures Inv(c, size, init, Start(init))
  {
    forall date ensures Logged(c, init, date) == Logged(c, init, date) + WrittenOn([], date) {
      assert WrittenOn([], date) == [];
    }
  }

  lemma QueueStep(c: Config, size: nat, s: System, step: Step)
    requires Valid(c, s.store) && QueueInv(size, s)
    ensures QueueInv(size, Next(c, size, s, step))
  {
    var t := Next(c, size, s, step);
    match step
    case WriteOut(today, canOpen) =>
      if s.worker.Writing? {
        assert Lines(t.outcomes) == Lines(s.outcomes) + [s.worker.line];
      }
    case _ =>
      assert t.outcomes == s.outcomes;
  }

  lemma CloseStep(c: Config, size: nat, s: System, step: Step)
    requires Valid(c, s.store) && CloseInv(s)
    ensures CloseInv(Next(c, size, s, step))
  {
    FlushKeeps(c, s.store);
    ReleaseKeeps(c, s.store);
  }

  lemma LogKept(c: Config, init: State, s: System, t: System)
    requires LogInv(c, init, s) && Keeps(c, s.store, t.store) && t.outcomes == s.outcomes
    ensures LogInv(c, init, t)
  {
    forall date ensures Logged(c, t.store, date) == Logged(c, init, date) + WrittenOn(t.outcomes, date) {
      assert Logged(c, t.store, date) == Logged(c, s.store, date);
    }
  }

  lemma LogWritten(c: Config, init: State, s: System, today: string, canOpen: bool, line: seq<byte>, t: System)
    requires LogInv(c, init, s)
    requires var (store, ok) := Write(c, s.store, today, canOpen, line);
             t.store == store && t.outcomes == s.outcomes + [Outcome(line, if ok then Some(today) else None)]
    ensures LogInv(c, init, t)
  {
    var last := t.outcomes[|s.outcomes|];
    WriteLogs(c, s.store, today, canOpen, line);
    forall date ensures Logged(c, t.store, date) == Logged(c, init, date) + WrittenOn(t.outcomes, date) {
      FlatMapAppend(OnDate(date), s.outcomes, [last]);
      FlatMapOne(OnDate(date), last);
      assert Logged(c, t.store, date) == Logged(c, s.store, date) + OnDate(date)(last);
      Assoc(Logged(c, init, date), WrittenOn(s.outcomes, date), OnDate(date)(last));
    }
  }

  /** No step but the worker's writing adds to any log. */
  lemma StoreKept(c: Config, size: nat, s: System, step: Step)
    requires Valid(c, s.store) && !(step.WriteOut? && s.worker.Writing?)
    ensures Keeps(c, s.store, Next(c, size, s, step).store) && Next(c, size, s, step).outcomes == s.outcomes
  {
    FlushKeeps(c, s.store);
    ReleaseKeeps(c, s.store);
  }

  lemma LogStep(c: Config, size: nat, init: State, s: System, step: Step)
    requires LogInv(c, init, s)
    ensures LogInv(c, init, Next(c, size, s, step))
  {
    var t := Next(c, size, s, step);
    if step.WriteOut? && s.worker.Writing? {
      LogWritten(c, init, s, step.today, step.canOpen, s.worker.line, t);
    } else {
      StoreKept(c, size, s, step);
      LogKept(c, init, s, t);
    }
  }

  /** Any schedule of steps: every interleaving is one. */
  ghost function Exec(c: Config, size: nat, init: State, steps: seq<Step>): (s: System)
    requires Valid(c, init)
    ensures Inv(c, size, init, s)
  {
    if steps == [] then
      StartInv(c, size, init);
      Start(init)
    else
      var s := Exec(c, size, init, steps[..|steps| - 1]);
      var step := steps[|steps| - 1];
      QueueStep(c, size, s, step);
      CloseStep(c, size, s, step);
      LogStep(c, size, init, s, step);
      Next(c, size, s, step)
  }

  /**
   * In every interleaving: the lines written, the line in the worker's hand and the queue are together
   * the accepted lines in the order they were accepted; the queue never holds more than its capacity;
   * and each date's log is what it was plus the lines written on that date.
   */
  lemma NothingLostOrReordered(c: Config, size: nat, init: State, steps: seq<Step>, date: string)
    requires Valid(c, init)
    ensures var s := Exec(c, size, init, steps);
            && Lines(s.outcomes) + InHand(s.worker) + s.ch == s.accepted && |s.ch| <= size
            && Logged(c, s.store, date) == Logged(c, init, date) + WrittenOn(s.outcomes, date)
  {
    var s := Exec(c, size, init, steps);
    assert LogInv(c, init, s);
  }

  lemma ExecOneMore(c: Config, size: nat, init: State, steps: seq<Step>, step: Step)
    requires Valid(c, init)
    ensures Exec(c, size, init, steps + [step]) == Next(c, size, Exec(c, size, init, steps), step)
  {
    assert (steps + [step])[..|steps|] == steps;
  }

  /** A line is accepted exactly when the writer is not closed and the queue has room. */
  lemma AppendAccepted(c: Config, size: nat, init: State, steps: seq<Step>, line: seq<byte>)
    requires Valid(c, init)
    ensures var s, t := Exec(c, size, init, steps), Exec(c, size, init, steps + [Append(line)]);
            && t.accepted == (if !s.closed && |s.ch| < size then s.accepted + [line] else s.accepted)
            && t.store == s.store && t.outcomes == s.outcomes
  {
    ExecOneMore(c, size, init, steps, Append(line));
  }

  function Appends(lines: seq<seq<byte>>): seq<Step> {
    seq(|lines|, i requires 0 <= i < |lines| => Append(lines[i]))
  }

  /** A caller's flush, and a tick that finds the worker waiting, put all that is logged on the disk. */
  lemma FlushedOnDisk(c: Config, size: nat, s: System, step: Step, date: string)
    requires Valid(c, s.store) && (step.CallerFlush? || (step.Tick? && s.worker.Selecting?))
    ensures OnDisk(Next(c, size, s, step).store.disk, c.naming.FileName(date)) == Logged(c, s.store, date)
  {
    FlushKeeps(c, s.store);
    assert Logged(c, Flushed(s.store), date) == Logged(c, s.store, date);
  }

  /** Once the first Close has been through, any other returns as well, and leaves no file open. */
  lemma LaterCloseReturns(c: Config, size: nat, s: System, id: nat)
    requires Valid(c, s.store) && s.once.Finished? && id !in s.closers
    ensures var t := Next(c, size, Next(c, size, s, JoinClose(id)), FinishClose(id));
            id in t.closers && t.closers[id].Returned? && t.store.file.None? && t.store.bw.None?
  {
    ReleaseKeeps(c, s.store);
  }

  /** Every attempt to write finds its day's file openable. */
  predicate AllOpen(steps: seq<Step>) {
    forall step <- steps :: step.WriteOut? ==> step.canOpen
  }

  /** A line without a date is one whose file could not be opened, and the others were written when they say. */
  ghost predicate DatedBy(steps: seq<Step>, o: Outcome) {
    match o.date
    case None => exists step <- steps :: step.WriteOut? && !step.canOpen
    case Some(date) => exists step <- steps :: step.WriteOut? && step.today == date
  }

  lemma {:induction false} OutcomesDated(c: Config, size: nat, init: State, steps: seq<Step>)
    requires Valid(c, init)
    ensures forall o <- Exec(c, size, init, steps).outcomes :: DatedBy(steps, o)
  {
    if steps != [] {
      var n := |steps| - 1;
      var s, step := Exec(c, size, init, steps[..n]), steps[n];
      OutcomesDated(c, size, init, steps[..n]);
      assert steps == steps[..n] + [step];
      forall o | o in Next(c, size, s, step).outcomes ensures DatedBy(steps, o) {
        if o in s.outcomes {
          DatedByMore(steps[..n], step, o);
        } else {
          DatedByLast(c, size, s, steps, step, o);
        }
      }
    }
  }

  lemma DatedByLast(c: Config, size: nat, s: System, steps: seq<Step>, step: Step, o: Outcome)
    requires Valid(c, s.store) && step in steps && o in Next(c, size, s, step).outcomes && o !in s.outcomes
    ensures DatedBy(steps, o)
  {
    assert step.WriteOut? && s.worker.Writing?;
    WriteLogs(c, s.store, step.today, step.canOpen, s.worker.line);
  }

  lemma DatedByMore(steps: seq<Step>, step: Step, o: Outcome)
    requires DatedBy(steps, o)
    ensures DatedBy(steps + [step], o)
  {
    assert forall x <- steps :: x in steps + [step];
  }

  /**
   * Once some Close has returned every accepted line has had its turn, in order, and nothing is left in
   * a buffer: each day's file holds what it held and the lines written on that day. When every attempt
   * to write found its file openable, every accepted line was written on some day, so all are on disk.
   */
  lemma ClosedMeansWritten(c: Config, size: nat, init: State, steps: seq<Step>, id: nat, date: string)
    requires Valid(c, init)
    requires var s := Exec(c, size, init, steps); id in s.closers && s.closers[id].Returned?
    ensures var s := Exec(c, size, init, steps);
            && Lines(s.outcomes) == s.accepted
            && OnDisk(s.store.disk, c.naming.FileName(date)) == Logged(c, init, date) + WrittenOn(s.outcomes, date)
            && (AllOpen(steps) ==> forall o <- s.outcomes :: o.date.Some?)
  {
    var s := Exec(c, size, init, steps);
    assert LogInv(c, init, s);
    assert Logged(c, s.store, date) == Logged(c, init, date) + WrittenOn(s.outcomes, date);
    assert Lines(s.outcomes) + [] + [] == Lines(s.outcomes);
    OutcomesDated(c, size, init, steps);
    if AllOpen(steps) {
      forall o | o in s.outcomes ensures o.date.Some? {
        assert DatedBy(steps, o);
      }
    }
  }

  // ------------------------------------------------------------ dropped lines

  /** The steps see the files of exactly the days in `openable` as openable. */
  predicate Follows(steps: seq<Step>, openable: string -> bool) {
    forall step <- steps :: step.WriteOut? ==> step.canOpen == openable(step.today)
  }

  /** Append, the worker's turn on a day whose file cannot be opened, and a Close. */
  function DropRun(line: seq<byte>, today: string): seq<Step> {
    [Append(line), Receive, WriteOut(today, false)] + CLOSING
  }

  /** `at` gives the states between the steps. */
  ghost predicate IsPath(c: Config, size: nat, at: nat -> System, steps: seq<Step>) {
    forall j: nat | j < |steps| :: Valid(c, at(j).store) && at(j + 1) == Next(c, size, at(j), steps[j])
  }

  lemma {:induction false} PathIsExec(c: Config, size: nat, init: State, at: nat -> System, steps: seq<Step>, n: nat)
    requires Valid(c, init) && at(0) == Start(init) && IsPath(c, size, at, steps) && n <= |steps|
    ensures Exec(c, size, init, steps[..n]) == at(n)
  {
    if n > 0 {
      PathIsExec(c, size, init, at, steps, n - 1);
      assert steps[..n][..n - 1] == steps[..n - 1];
    }
  }

  /** The states while `lines` are appended and nothing else happens. */
  function Queued(init: State, lines: seq<seq<byte>>, k: nat): System
    requires k <= |lines|
  {
    Start(init).(ch := lines[..k], accepted := lines[..k])
  }

  lemma QueuedNext(c: Config, size: nat, init: State, lines: seq<seq<byte>>, k: nat)
    requires Valid(c, init) && k < |lines| <= size
    ensures Next(c, size, Queued(init, lines, k), Append(lines[k])) == Queued(init, lines, k + 1)
  {
    assert lines[..k + 1] == lines[..k] + [lines[k]];
  }

  /** So as many lines as the queue holds are accepted in a row before the worker has taken any. */
  lemma BurstAccepted(c: Config, size: nat, init: State, lines: seq<seq<byte>>)
    requires Valid(c, init) && |lines| <= size
    ensures var s := Exec(c, size, init, Appends(lines)); s.accepted == lines && s.ch == lines && !s.closed
  {
    var steps, n := Appends(lines), |lines|;
    assert lines[..0] == [] && Queued(init, lines, 0) == Start(init);
    var at := (k: nat) => Queued(init, lines, if k <= n then k else n);
    forall j: nat | j < n ensures Valid(c, at(j).store) && at(j + 1) == Next(c, size, at(j), steps[j]) {
      QueuedNext(c, size, init, lines, j);
    }
    PathIsExec(c, size, init, at, steps, n);
    assert steps[..n] == steps && lines[..n] == lines;
    assert at(n) == Queued(init, lines, n);
  }

  /** An idle store with nothing queued. */
  predicate Calm(c: Config, s: System) {
    && Valid(c, s.store) && s.store.file.None?
    && s.ch == [] && !s.closed && s.worker.Selecting? && s.once.Fresh? && s.closers == map[]
  }

  /** The states of such a store while a caller closes it. */
  function Closing(s: System, k: nat): (t: System)
    ensures t.store == s.store
  {
    var closing := s.(closed := true, once := Running, closers := s.closers[0 := Waiting]);
    var stopped := s.(closed := true, once := Finished, worker := Stopped);
    if k == 0 then s
    else if k == 1 then closing
    else if k == 2 then closing.(worker := Draining)
    else if k == 3 then closing.(worker := Stopped)
    else if k == 4 then stopped.(closers := s.closers[0 := Locking])
    else stopped.(closers := s.closers[0 := Returned])
  }

  const CLOSING: seq<Step> := [BeginClose(0), Receive, FinalFlush, OnceDone(0), FinishClose(0)]

  /** Each of those steps is possible: the worker comes to its end, and the caller through the lock. */
  lemma ClosingNext(c: Config, size: nat, s: System, k: nat)
    requires Calm(c, s) && k < 5
    ensures Next(c, size, Closing(s, k), CLOSING[k]) == Closing(s, k + 1)
  {
    var t := Closing(s, k);
    assert Valid(c, t.store) && t.store == s.store;
    assert k == 4 ==> t.closers[0 := Returned] == s.closers[0 := Returned];
    assert k == 3 ==> t.closers[0 := Locking] == s.closers[0 := Locking];
  }

  /** The states of a store whose first line is dropped, up to the end of a Close. */
  function Dropping(init: State, line: seq<byte>, k: nat): (t: System)
    ensures t.store == init
  {
    var start := Start(init);
    if k == 0 then start
    else if k == 1 then start.(ch := [line], accepted := [line])
    else if k == 2 then start.(accepted := [line], worker := Writing(line))
    else Closing(start.(accepted := [line], outcomes := [Outcome(line, None)]), k - 3)
  }

  lemma DroppingNext(c: Config, size: nat, init: State, line: seq<byte>, today: string, k: nat)
    requires Valid(c, init) && init.file.None? && size > 0 && k < 8
    ensures Next(c, size, Dropping(init, line, k), DropRun(line, today)[k]) == Dropping(init, line, k + 1)
  {
    if k >= 3 {
      ClosingNext(c, size, Dropping(init, line, 3), k - 3);
    }
  }

  /** An accepted line is dropped when its day's file cannot be opened, and Close returns all the same. */
  lemma LineDropped(c: Config, size: nat, init: State, line: seq<byte>, today: string)
    requires Valid(c, init) && init.file.None? && size > 0
    ensures var s := Exec(c, size, init, DropRun(line, today));
            && s.accepted == [line] && s.outcomes == [Outcome(line, None)]
            && s.closers == map[0 := Returned] && s.store == init
  {
    var steps, at := DropRun(line, today), (k: nat) => Dropping(init, line, k);
    forall j: nat | j < |steps|
      ensures Valid(c, at(j).store) && at(j + 1) == Next(c, size, at(j), steps[j])
    {
      DroppingNext(c, size, init, line, today, j);
    }
    PathIsExec(c, size, init, at, steps, |steps|);
    assert steps[..|steps|] == steps;
    assert at(8) == Dropping(init, line, 8);
  }

  ghost predicate AllWritten(c: Config, size: nat, init: State, steps: seq<Step>)
    requires Valid(c, init)
  {
    forall o <- Exec(c, size, init, steps).outcomes :: o.date.Some?
  }

  /**
   * No schedule drops an accepted line if and only if the file of every day the clock can show can be
   * opened, for a store that starts with no file open.
   */
  lemma NoneDropped(c: Config, size: nat, init: State, openable: string -> bool)
    requires Valid(c, init) && init.file.None? && size > 0
    ensures (forall steps | Follows(steps, openable) :: AllWritten(c, size, init, steps)) <==> forall d :: openable(d)
  {
    if d :| !openable(d) {
      var steps := DropRun([LF], d);
      LineDropped(c, size, init, [LF], d);
      var s := Exec(c, size, init, steps);
      assert Follows(steps, openable) && s.outcomes[0] in s.outcomes && !AllWritten(c, size, init, steps);
    } else {
      forall steps | Follows(steps, openable) ensures AllWritten(c, size, init, steps) {
        OutcomesDated(c, size, init, steps);
        forall o | o in Exec(c, size, init, steps).outcomes ensures o.date.Some? {
          assert DatedBy(steps, o);
        }
      }
    }
  }

  // -------------------------------------------------------- Close can return

  predicate NoAppends(steps: seq<Step>) {
    forall step <- steps :: !step.Append?
  }

  /** How far a Close is from returning. */
  function Distance(s: System, id: nat): nat
    requires id in s.closers
  {
    match s.closers[id]
    case Returned => 0
    case Locking => 1
    case Waiting =>
      match s.worker
      case Stopped => 2
      case Draining => 3
      case Selecting => 4 + 2 * |s.ch|
      case Writing(_) => 5 + 2 * |s.ch|
  }

  /** The step that brings a Close nearer to its return. */
  function Nearer(s: System, id: nat): Step
    requires id in s.closers
  {
    if s.closers[id].Locking? then FinishClose(id)
    else
      match s.worker
      case Stopped => OnceDone(id)
      case Draining => FinalFlush
      case Selecting => Receive
      case Writing(_) => WriteOut("", true)
  }

  lemma NearerStep(c: Config, size: nat, s: System, id: nat)
    requires Valid(c, s.store) && CloseInv(s) && id in s.closers && !s.closers[id].Returned?
    ensures var t := Next(c, size, s, Nearer(s, id));
            id in t.closers && Distance(t, id) < Distance(s, id) && t.accepted == s.accepted
  {
  }

  /** `run` gives the state after any steps, and `next` that after one more. */
  ghost predicate IsRun(run: seq<Step> -> System, next: (System, Step) -> System) {
    forall steps, step :: run(steps + [step]) == next(run(steps), step)
  }

  /** `nearer` brings a Close nearer to its return in every state that `run` reaches. */
  ghost predicate Approaches(run: seq<Step> -> System, next: (System, Step) -> System, nearer: System -> Step,
                             id: nat)
  {
    forall steps ::
      var s := run(steps);
      id in s.closers && !s.closers[id].Returned? ==>
        var t := next(s, nearer(s));
        id in t.closers && Distance(t, id) < Distance(s, id) && !nearer(s).Append? && t.accepted == s.accepted
  }

  lemma {:induction false} Approach(run: seq<Step> -> System, next: (System, Step) -> System, nearer: System -> Step,
                                    steps: seq<Step>, id: nat) returns (more: seq<Step>)
    requires IsRun(run, next) && Approaches(run, next, nearer, id) && id in run(steps).closers
    ensures NoAppends(more) && id in run(steps + more).closers && run(steps + more).closers[id].Returned?
    ensures run(steps + more).accepted == run(steps).accepted
    decreases Distance(run(steps), id)
  {
    var s := run(steps);
    if s.closers[id].Returned? {
      more := [];
      assert steps + more == steps;
    } else {
      var step := nearer(s);
      assert run(steps + [step]) == next(s, step);
      var rest := Approach(run, next, nearer, steps + [step], id);
      more := [step] + rest;
      Assoc(steps, [step], rest);
    }
  }

  /**
   * No deadlock: from every reachable state in which a Close is under way, some schedule without a new
   * Append drains the queue and returns that Close. The lines accepted before have all been written then,
   * in order.
   */
  lemma CloseCanReturn(c: Config, size: nat, init: State, steps: seq<Step>, id: nat)
    requires Valid(c, init) && id in Exec(c, size, init, steps).closers
    ensures exists more | NoAppends(more) ::
              var t := Exec(c, size, init, steps + more);
              && id in t.closers && t.closers[id].Returned?
              && Lines(t.outcomes) == t.accepted == Exec(c, size, init, steps).accepted
  {
    ghost var run := (some: seq<Step>) => Exec(c, size, init, some);
    ghost var next := (s: System, step: Step) => if Valid(c, s.store) then Next(c, size, s, step) else s;
    ghost var nearer := (s: System) => if id in s.closers then Nearer(s, id) else Receive;
    forall some, step ensures run(some + [step]) == next(run(some), step) {
      ExecOneMore(c, size, init, some, step);
    }
    forall some | id in run(some).closers && !run(some).closers[id].Returned?
      ensures var s, t := run(some), next(run(some), nearer(run(some)));
              id in t.closers && Distance(t, id) < Distance(s, id) && !nearer(s).Append? && t.accepted == s.accepted
    {
      NearerStep(c, size, run(some), id);
    }
    var more := Approach(run, next, nearer, steps, id);
    ClosedMeansWritten(c, size, init, steps + more, id, "");
  }
}
