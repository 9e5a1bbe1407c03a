/** The day-rolled, buffered log writer of jsonl/store.go. */
module JsonlStore {
  import opened Machine
  import opened Sequences
  import opened JsonlNaming

  datatype Config = Config(naming: Naming, bufSize: int)

  /** The writer's fields together with the directory it writes to. `file` is the open file's name. */
  datatype State = State(date: string, file: Option<string>, bw: Option<seq<byte>>, disk: map<string, seq<byte>>)

  function OnDisk(disk: map<string, seq<byte>>, path: string): seq<byte> {
    if path in disk then disk[path] else []
  }

  function AppendTo(disk: map<string, seq<byte>>, path: string, data: seq<byte>): map<string, seq<byte>> {
    disk[path := OnDisk(disk, path) + data]
  }

  function Buffered(s: State): seq<byte> {
    if s.bw.Some? then s.bw.value else []
  }

  predicate Valid(c: Config, s: State) {
    && (s.file.None? ==> s.bw.None?)
    && (s.file.Some? ==>
          && s.file.value == c.naming.FileName(s.date)
          && (s.bw.Some? <==> c.bufSize > 0)
          && |Buffered(s)| <= if c.bufSize > 0 then c.bufSize else 0)
  }

  /** Everything logged for `date`: its bytes on disk, then those buffered if its file is the open one. */
  function Logged(c: Config, s: State, date: string): seq<byte> {
    var path := c.naming.FileName(date);
    OnDisk(s.disk, path) + (if s.file == Some(path) then Buffered(s) else [])
  }

  // ------------------------------------------------------- what the steps do

  /** bufio.Writer.Write: what is passed on to the file, and what stays in the buffer of size `cap`. */
  function BufferWrite(cap: int, buf: seq<byte>, p: seq<byte>): (r: (seq<byte>, seq<byte>))
    requires cap > 0 && |buf| <= cap
    ensures r.0 + r.1 == buf + p && |r.1| <= cap
    decreases |buf| + |p|, |p|
  {
    if |p| <= cap - |buf| then ([], buf + p)
    else if buf == [] then (p, [])
    else
      var n := cap - |buf|;
      var rest := BufferWrite(cap, [], p[n..]);
      assert buf + p == (buf + p[..n]) + p[n..];
      assert p[n..] == [] + p[n..];
      (buf + p[..n] + rest.0, rest.1)
  }

  /** One turn of the buffered writer's loop, after `out` has been passed on. */
  lemma BufferWriteStep(cap: int, buf: seq<byte>, p: seq<byte>, out: seq<byte>)
    requires cap > 0 && |buf| <= cap && |p| > cap - |buf|
    ensures var r := BufferWrite(cap, buf, p);
            if buf == [] then (out + r.0, r.1) == ((out + p) + BufferWrite(cap, [], []).0, [])
            else
              var n := cap - |buf|;
              var rest := BufferWrite(cap, [], p[n..]);
              (out + r.0, r.1) == (out + (buf + p[..n]) + rest.0, rest.1)
  {
    if buf == [] {
      assert (out + p) + [] == out + p;
    } else {
      var n := cap - |buf|;
      Assoc(out, buf + p[..n], BufferWrite(cap, [], p[n..]).0);
    }
  }

  /**
   * What is passed on: nothing while all fits, a long line as it is when the buffer is empty; otherwise the buffer
   * is filled up and passed on, and the rest of the line is treated likewise.
   */
  lemma BufferWriteIs(cap: int, buf: seq<byte>, p: seq<byte>)
    requires cap > 0 && |buf| <= cap
    ensures |buf| + |p| <= cap ==> BufferWrite(cap, buf, p) == ([], buf + p)
    ensures buf == [] && |p| > cap ==> BufferWrite(cap, buf, p) == (p, [])
    ensures buf != [] && |buf| + |p| > cap ==>
              var rest := p[cap - |buf|..];
              BufferWrite(cap, buf, p) == if |rest| <= cap then ((buf + p)[..cap], rest) else (buf + p, [])
  {
    if buf != [] && |buf| + |p| > cap {
      var n := cap - |buf|;
      assert (buf + p)[..cap] == buf + p[..n];
      assert [] + p[n..] == p[n..] && buf + p[..n] + p[n..] == buf + p;
      assert buf + p[..n] + [] == buf + p[..n];
    }
  }

  function Released(s: State): State {
    if s.file.None? then s
    else s.(file := None, bw := None, disk := if s.bw.Some? then AppendTo(s.disk, s.file.value, s.bw.value) else s.disk)
  }

  /** ensureFileLocked; `canOpen` is whether opening today's file succeeds. */
  function EnsureFile(c: Config, s: State, today: string, canOpen: bool): (State, bool) {
    if s.file.Some? && s.date == today then (s, true)
    else if !canOpen then (Released(s), false)
    else
      var path := c.naming.FileName(today);
      (State(today, Some(path), if c.bufSize > 0 then Some([]) else None, AppendTo(Released(s).disk, path, [])), true)
  }

  /** writeLocked. */
  function Write(c: Config, s: State, today: string, canOpen: bool, line: seq<byte>): (State, bool)
    requires Valid(c, s)
  {
    var (t, ok) := EnsureFile(c, s, today, canOpen);
    if !ok then (t, false)
    else if t.bw.Some? then
      var (out, kept) := BufferWrite(c.bufSize, t.bw.value, line);
      (t.(bw := Some(kept), disk := AppendTo(t.disk, t.file.value, out)), true)
    else (t.(disk := AppendTo(t.disk, t.file.value, line)), true)
  }

  function Flushed(s: State): State
    requires s.file.None? ==> s.bw.None?
  {
    if s.bw.Some? then s.(bw := Some([]), disk := AppendTo(s.disk, s.file.value, s.bw.value)) else s
  }

  /** The locked part of Close. */
  function CloseFile(s: State): State {
    Released(s)
  }

  // --------------------------------------------------------------- one step

  /** No step takes bytes off the disk or changes what is logged for a day it does not write on. */
  ghost predicate Keeps(c: Config, s: State, t: State) {
    && Valid(c, t)
    && (forall date :: Logged(c, t, date) == Logged(c, s, date))
    && (forall path :: OnDisk(s.disk, path) <= OnDisk(t.disk, path))
  }

  lemma ReleaseKeeps(c: Config, s: State)
    requires Valid(c, s)
    ensures Keeps(c, s, Released(s)) && Released(s).bw.None? && Released(s).file.None?
  {
    forall date ensures Logged(c, Released(s), date) == Logged(c, s, date) {
      FileNameInjective(c.naming, date, s.date);
    }
  }

  lemma FlushKeeps(c: Config, s: State)
    requires Valid(c, s)
    ensures Keeps(c, s, Flushed(s)) && Buffered(Flushed(s)) == []
  {
    forall date ensures Logged(c, Flushed(s), date) == Logged(c, s, date) {
      FileNameInjective(c.naming, date, s.date);
    }
  }

  lemma EnsureKeeps(c: Config, s: State, today: string, canOpen: bool)
    requires Valid(c, s)
    ensures var (t, ok) := EnsureFile(c, s, today, canOpen);
            Keeps(c, s, t) && (ok ==> t.file == Some(c.naming.FileName(today)) && t.date == today)
            && (!ok ==> !canOpen && t.file.None?)
            && (ok <==> canOpen || (s.file.Some? && s.date == today))
            && (s.file.Some? && s.date == today ==> t == s)
  {
    ReleaseKeeps(c, s);
    var (t, ok) := EnsureFile(c, s, today, canOpen);
    forall date ensures Logged(c, t, date) == Logged(c, s, date) {
      FileNameInjective(c.naming, date, today);
      assert Logged(c, Released(s), date) == Logged(c, s, date);
    }
  }

  /** A write adds its line to today's log, or nothing when today's file cannot be opened; no other day changes. */
  lemma WriteLogs(c: Config, s: State, today: string, canOpen: bool, line: seq<byte>)
    requires Valid(c, s)
    ensures var (t, ok) := Write(c, s, today, canOpen, line);
            && Valid(c, t)
            && (ok <==> canOpen || (s.file.Some? && s.date == today))
            && (ok ==> t.file == Some(c.naming.FileName(today)) && t.date == today)
            && Logged(c, t, today) == Logged(c, s, today) + (if ok then line else [])
            && (forall date | date != today :: Logged(c, t, date) == Logged(c, s, date))
            && (forall path :: OnDisk(s.disk, path) <= OnDisk(t.disk, path))
  {
    EnsureKeeps(c, s, today, canOpen);
    var (e, ready) := EnsureFile(c, s, today, canOpen);
    var (t, ok) := Write(c, s, today, canOpen, line);
    assert Logged(c, e, today) == Logged(c, s, today);
    if ready {
      var disk := OnDisk(e.disk, e.file.value);
      var r := if e.bw.Some? then BufferWrite(c.bufSize, e.bw.value, line) else (line, []);
      assert r.0 + r.1 == Buffered(e) + line;
      Assoc(disk, r.0, r.1);
      Assoc(disk, Buffered(e), line);
    }
    forall date | date != today ensures Logged(c, t, date) == Logged(c, s, date) {
      FileNameInjective(c.naming, date, today);
      assert Logged(c, e, date) == Logged(c, s, date);
    }
  }

  // --------------------------------------------------------------- all runs

  /** What a caller, the flusher or the clock can make happen next. */
  datatype Op = WriteLine(today: string, canOpen: bool, line: seq<byte>) | Flush | Close

  function Step(c: Config, s: State, op: Op): State
    requires Valid(c, s)
  {
    match op
    case WriteLine(today, canOpen, line) => Write(c, s, today, canOpen, line).0
    case Flush => Flushed(s)
    case Close => CloseFile(s)
  }

  /** What a step adds to the log of `date`. */
  function Adds(c: Config, s: State, op: Op, date: string): seq<byte>
    requires Valid(c, s)
  {
    if op.WriteLine? && op.today == date && Write(c, s, op.today, op.canOpen, op.line).1 then op.line else []
  }

  lemma StepLogs(c: Config, s: State, op: Op, date: string)
    requires Valid(c, s)
    ensures Valid(c, Step(c, s, op))
    ensures Logged(c, Step(c, s, op), date) == Logged(c, s, date) + Adds(c, s, op, date)
    ensures forall path :: OnDisk(s.disk, path) <= OnDisk(Step(c, s, op).disk, path)
  {
    match op
    case WriteLine(today, canOpen, line) => WriteLogs(c, s, today, canOpen, line);
    case Flush => FlushKeeps(c, s);
    case Close => ReleaseKeeps(c, s);
  }

  function Run(c: Config, s: State, ops: seq<Op>): (t: State)
    requires Valid(c, s)
    ensures Valid(c, t)
    decreases |ops|
  {
    if ops == [] then s else
      StepLogs(c, s, ops[0], "");
      Run(c, Step(c, s, ops[0]), ops[1..])
  }

  /** The lines written while the clock showed `date`, in order. */
  function Written(c: Config, s: State, ops: seq<Op>, date: string): seq<byte>
    requires Valid(c, s)
    decreases |ops|
  {
    if ops == [] then [] else
      StepLogs(c, s, ops[0], "");
      Adds(c, s, ops[0], date) + Written(c, Step(c, s, ops[0]), ops[1..], date)
  }

  /**
   * Byte conservation: after any schedule of writes, flushes, date changes (in either direction),
   * closes and reopenings, each date has on disk and in the buffer of its open file exactly what was
   * there before followed by the lines written while it was today. The disk only ever grows at the end
   * and holds a prefix of that stream.
   */
  lemma {:induction false} BytesConserved(c: Config, s: State, ops: seq<Op>, date: string)
    requires Valid(c, s)
    ensures Logged(c, Run(c, s, ops), date) == Logged(c, s, date) + Written(c, s, ops, date)
    ensures forall path :: OnDisk(s.disk, path) <= OnDisk(Run(c, s, ops).disk, path)
    ensures OnDisk(Run(c, s, ops).disk, c.naming.FileName(date)) <= Logged(c, s, date) + Written(c, s, ops, date)
    decreases |ops|
  {
    if ops == [] {
      assert Logged(c, s, date) + [] == Logged(c, s, date);
    } else {
      var t := Step(c, s, ops[0]);
      StepLogs(c, s, ops[0], date);
      BytesConserved(c, t, ops[1..], date);
      Assoc(Logged(c, s, date), Adds(c, s, ops[0], date), Written(c, t, ops[1..], date));
    }
  }

  lemma {:induction false} RunAppend(c: Config, s: State, a: seq<Op>, b: seq<Op>)
    requires Valid(c, s)
    ensures Run(c, s, a + b) == Run(c, Run(c, s, a), b)
    decreases |a|
  {
    if a == [] {
      assert a + b == b;
    } else {
      RunAppend(c, Step(c, s, a[0]), a[1..], b);
      assert (a + b)[0] == a[0] && (a + b)[1..] == a[1..] + b;
    }
  }

  /** After a Close nothing is left in the buffer: the disk has it all. */
  lemma ClosedIsOnDisk(c: Config, s: State, ops: seq<Op>, date: string)
    requires Valid(c, s)
    ensures OnDisk(Run(c, s, ops + [Close]).disk, c.naming.FileName(date)) ==
            Logged(c, s, date) + Written(c, s, ops, date)
  {
    RunAppend(c, s, ops, [Close]);
    var t := Run(c, s, ops);
    assert Run(c, t, [Close]) == Step(c, t, Close) by {
      assert Run(c, Step(c, t, Close), []) == Step(c, t, Close);
    }
    ReleaseKeeps(c, t);
    BytesConserved(c, s, ops, date);
    assert Logged(c, CloseFile(t), date) == Logged(c, t, date);
  }

  // -------------------------------------------------------------- the class

  class Store {
    const config: Config
    var date: string
    var file: Option<string>
    var bw: Option<seq<byte>>
    var disk: map<string, seq<byte>>

    function Value(): State
      reads this
    {
      State(date, file, bw, disk)
    }

    constructor (config: Config, disk: map<string, seq<byte>>)
      ensures this.config == config && Value() == State("", None, None, disk) && Valid(config, Value())
    {
      this.config := config;
      this.date, this.file, this.bw := "", None, None;
      this.disk := disk;
    }

    /** The buffered writer's loop; `out` is what reaches the file. */
    method BufferedWrite(line: seq<byte>)
      requires file.Some? && bw.Some? && config.bufSize > 0 && |bw.value| <= config.bufSize
      modifies this`bw, this`disk
      ensures var r := BufferWrite(config.bufSize, old(bw.value), line);
              bw == Some(r.1) && disk == AppendTo(old(disk), file.value, r.0)
    {
      ghost var all := BufferWrite(config.bufSize, bw.value, line);
      var buf, p, out := bw.value, line, [];
      assert [] + all.0 == all.0;
      while |p| > config.bufSize - |buf|
        invariant |buf| <= config.bufSize && unchanged(this)
        invariant var r := BufferWrite(config.bufSize, buf, p); all == (out + r.0, r.1)
        decreases |p| + |buf|, |p|
      {
        BufferWriteStep(config.bufSize, buf, p, out);
        if buf == [] {
          out, p := out + p, [];
        } else {
          var n := config.bufSize - |buf|;
          out := out + (buf + p[..n]);
          buf, p := [], p[n..];
        }
      }
      assert all == (out, buf + p) by {
        assert out + [] == out;
      }
      bw := Some(buf + p);
      disk := AppendTo(disk, file.value, out);
    }

    method EnsureFileLocked(today: string, canOpen: bool) returns (ok: bool)
      requires Valid(config, Value())
      modifies this
      ensures (Value(), ok) == EnsureFile(config, old(Value()), today, canOpen)
    {
      if file.Some? && date == today {
        return true;
      }
      if file.Some? {
        if bw.Some? {
          disk := AppendTo(disk, file.value, bw.value);
        }
        file := None;
        bw := None;
      }
      if !canOpen {
        return false;
      }
      var path := config.naming.FileName(today);
      disk := AppendTo(disk, path, []);
      file := Some(path);
      date := today;
      if config.bufSize > 0 {
        bw := Some([]);
      }
      return true;
    }

    method WriteLocked(line: seq<byte>, today: string, canOpen: bool) returns (ok: bool)
      requires Valid(config, Value())
      modifies this
      ensures (Value(), ok) == Write(config, old(Value()), today, canOpen, line)
      ensures Valid(config, Value())
    {
      WriteLogs(config, Value(), today, canOpen, line);
      EnsureKeeps(config, Value(), today, canOpen);
      ok := EnsureFileLocked(today, canOpen);
      if !ok {
        return;
      }
      if bw.Some? {
        BufferedWrite(line);
      } else {
        disk := AppendTo(disk, file.value, line);
      }
    }

    method FlushBuffer()
      requires Valid(config, Value())
      modifies this
      ensures Value() == Flushed(old(Value())) && Valid(config, Value())
    {
      FlushKeeps(config, Value());
      if bw.Some? {
        disk := AppendTo(disk, file.value, bw.value);
        bw := Some([]);
      }
    }

    method CloseLocked()
      requires Valid(config, Value())
      modifies this
      ensures Value() == CloseFile(old(Value())) && Valid(config, Value())
    {
      ReleaseKeeps(config, Value());
      if bw.Some? {
        disk := AppendTo(disk, file.value, bw.value);
        bw := None;
      }
      if file.Some? {
        file := None;
      }
    }
  }
}
