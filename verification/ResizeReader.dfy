/**
 * The input filter of a web terminal: `terminalResizeReader` of webssh/session.go takes the resize
 * control frames out of the input stream and passes them to the session. A character stands for a byte.
 */
module ResizeReader {
  import opened Machine
  import opened Sequences
  import opened Text
  import Calendar
  import opened WsConn

  // ---------------------------------------------------------- control frames

  predicate IsDigit(c: char) {
    '0' <= c <= '9'
  }

  predicate AllDigits(s: string) {
    forall c <- s :: IsDigit(c)
  }

  function Value(s: string): nat
    requires AllDigits(s)
  {
    if s == "" then 0
    else
      assert s[|s| - 1] in s;
      Value(s[..|s| - 1]) * 10 + (s[|s| - 1] as int - '0' as int)
  }

  /** `strconv.Atoi`: an optional sign, at least one digit, nothing else, and 64 bits must hold it. */
  function Atoi(s: string): Option<int> {
    var body := if s != "" && (s[0] == '+' || s[0] == '-') then s[1..] else s;
    if body == "" || !AllDigits(body) then None
    else
      var n: int := Value(body);
      var v := if s[0] == '-' then -n else n;
      if IsInt64(v) then Some(v) else None
  }

  datatype Frame = NotControl | Control(cols: int, rows: int)

  predicate InRange(cols: int, rows: int) {
    10 <= cols <= 1000 && 3 <= rows <= 1000
  }

  /** A malformed control frame stands for the size 0 by 0. */
  function ParseResize(data: string, prefix: string): Frame {
    if prefix == "" || !(prefix <= data) then NotControl
    else
      var parts := Split(data[|prefix|..], ':');
      if |parts| != 2 then Control(0, 0)
      else
        match (Atoi(parts[0]), Atoi(parts[1]))
        case (Some(cols), Some(rows)) => if InRange(cols, rows) then Control(cols, rows) else Control(0, 0)
        case _ => Control(0, 0)
  }

  /** What a well-formed frame for a size looks like, apart from how its numbers are written. */
  ghost predicate WellFormed(data: string, prefix: string, cols: int, rows: int) {
    prefix != "" && exists a, b ::
      data == prefix + (a + ":" + b) && ':' !in a && ':' !in b && Atoi(a) == Some(cols) && Atoi(b) == Some(rows)
  }

  /** Control frames are exactly what starts with the prefix, and a size comes only from a well-formed one. */
  lemma SizeFromFrame(data: string, prefix: string)
    ensures ParseResize(data, prefix).Control? <==> prefix != "" && prefix <= data
    ensures var f := ParseResize(data, prefix);
            f.Control? ==> f == Control(0, 0) || (10 <= f.cols <= 1000 && 3 <= f.rows <= 1000)
    ensures forall cols, rows :: 10 <= cols <= 1000 && 3 <= rows <= 1000 ==>
              (ParseResize(data, prefix) == Control(cols, rows) <==> WellFormed(data, prefix, cols, rows))
  {
    forall cols, rows | InRange(cols, rows)
      ensures ParseResize(data, prefix) == Control(cols, rows) <==> WellFormed(data, prefix, cols, rows)
    {
      if ParseResize(data, prefix) == Control(cols, rows) {
        var parts := Split(data[|prefix|..], ':');
        SplitJoin(data[|prefix|..], ':');
        SplitParts(data[|prefix|..], ':');
        assert parts[0] in parts && parts[1] in parts;
        assert data == prefix + (parts[0] + ":" + parts[1]);
      }
      if WellFormed(data, prefix, cols, rows) {
        var a, b :|
          data == prefix + (a + ":" + b) && ':' !in a && ':' !in b && Atoi(a) == Some(cols) && Atoi(b) == Some(rows);
        assert data[|prefix|..] == a + ":" + b;
        SplitFirst(a, ':', b);
        SplitWhole(b, ':');
      }
    }
  }

  function Decimal(n: nat): string {
    Calendar.Pad(n, 0)
  }

  lemma {:induction false} DecimalValue(n: nat)
    ensures Decimal(n) != "" && AllDigits(Decimal(n)) && Value(Decimal(n)) == n
  {
    var last := [Calendar.Digit(n % 10)];
    if n < 10 {
      assert last[..0] == "";
    } else {
      DecimalValue(n / 10);
      assert Decimal(n)[..|Decimal(n)| - 1] == Decimal(n / 10);
    }
  }

  /** A decimal is read with or without a sign, as far as 64 bits reach. */
  lemma SignedDecimal(n: nat)
    ensures Atoi(Decimal(n)) == Atoi("+" + Decimal(n))
    ensures Atoi(Decimal(n)).Some? <==> n < 0x8000_0000_0000_0000
    ensures Atoi(Decimal(n)).Some? ==> Atoi(Decimal(n)).value == n
    ensures Atoi("-" + Decimal(n)).Some? <==> n <= 0x8000_0000_0000_0000
    ensures Atoi("-" + Decimal(n)).Some? ==> Atoi("-" + Decimal(n)).value + n == 0
  {
    var s := Decimal(n);
    DecimalValue(n);
    assert ("+" + s)[1..] == s && ("-" + s)[1..] == s && s[0] in s;
  }

  /** Nothing but digits is read, after at most one sign. */
  lemma OnlyDecimals(s: string)
    requires Atoi(s).Some?
    ensures s != "" && forall i | 0 <= i < |s| :: IsDigit(s[i]) || (i == 0 && |s| > 1 && s[0] in "+-")
  {
    forall i | 0 <= i < |s|
      ensures IsDigit(s[i]) || (i == 0 && |s| > 1 && s[0] in "+-")
    {
      if s[0] == '+' || s[0] == '-' {
        assert i > 0 ==> s[i] == s[1..][i - 1] && s[i] in s[1..];
      } else {
        assert s[i] in s;
      }
    }
  }

  lemma FrameRead(prefix: string, a: string, b: string)
    requires prefix != "" && ':' !in a && ':' !in b && Atoi(a).Some? && Atoi(b).Some?
    ensures var cols, rows := Atoi(a).value, Atoi(b).value;
            ParseResize(prefix + (a + ":" + b), prefix) ==
            if InRange(cols, rows) then Control(cols, rows) else Control(0, 0)
  {
    assert (prefix + (a + ":" + b))[|prefix|..] == a + ":" + b;
    SplitFirst(a, ':', b);
    SplitWhole(b, ':');
  }

  lemma LargeFrameRead(prefix: string, a: string, b: string)
    requires prefix != "" && ':' !in a && ':' !in b && (Atoi(a).None? || Atoi(b).None?)
    ensures ParseResize(prefix + (a + ":" + b), prefix) == Control(0, 0)
  {
    assert (prefix + (a + ":" + b))[|prefix|..] == a + ":" + b;
    SplitFirst(a, ':', b);
    SplitWhole(b, ':');
  }

  /** A printed size is read back, and a size out of range is read as malformed. */
  lemma PrintedSize(prefix: string, cols: nat, rows: nat)
    requires prefix != ""
    ensures ParseResize(prefix + (Decimal(cols) + ":" + Decimal(rows)), prefix) ==
            if 10 <= cols <= 1000 && 3 <= rows <= 1000 then Control(cols, rows) else Control(0, 0)
  {
    var a, b := Decimal(cols), Decimal(rows);
    DecimalValue(cols);
    DecimalValue(rows);
    SignedDecimal(cols);
    SignedDecimal(rows);
    if Atoi(a).Some? && Atoi(b).Some? {
      FrameRead(prefix, a, b);
    } else {
      LargeFrameRead(prefix, a, b);
    }
  }

  // ------------------------------------------------------------ the terminal

  /** The fields of the reader that hold the size, and the `WindowChange(rows, cols)` calls made so far. */
  datatype Terminal = Terminal(cols: int, rows: int, ready: bool, changes: seq<(int, int)>)

  datatype Op = Enable | Resize(cols: int, rows: int)

  function Apply(t: Terminal, op: Op): Terminal {
    match op
    case Enable =>
      t.(ready := true, changes := if t.cols > 0 && t.rows > 0 then t.changes + [(t.rows, t.cols)] else t.changes)
    case Resize(cols, rows) =>
      t.(cols := cols, rows := rows, changes := if t.ready then t.changes + [(rows, cols)] else t.changes)
  }

  function Run(ops: seq<Op>): Terminal {
    if ops == [] then Terminal(0, 0, false, []) else Apply(Run(ops[..|ops| - 1]), ops[|ops| - 1])
  }

  /** The sizes asked for, oldest first. */
  function Resizes(ops: seq<Op>): seq<(int, int)> {
    if ops == [] then []
    else
      var op := ops[|ops| - 1];
      Resizes(ops[..|ops| - 1]) + if op.Resize? then [(op.cols, op.rows)] else []
  }

  /** Some size was asked for after the terminal had been enabled. */
  predicate ResizedReady(ops: seq<Op>) {
    exists i, j :: 0 <= i < j < |ops| && ops[i].Enable? && ops[j].Resize?
  }

  function Latest(ops: seq<Op>): (int, int) {
    if Resizes(ops) == [] then (0, 0) else Resizes(ops)[|Resizes(ops)| - 1]
  }

  /** The size the session was last told, as columns and rows. */
  function Shown(t: Terminal): Option<(int, int)> {
    if t.changes == [] then None else var c := t.changes[|t.changes| - 1]; Some((c.1, c.0))
  }

  lemma {:induction false} ResizedReadySnoc(ops: seq<Op>, op: Op)
    ensures ResizedReady(ops + [op]) <==> ResizedReady(ops) || (op.Resize? && Enable in ops)
  {
    var all := ops + [op];
    if ResizedReady(ops) {
      var i, j :| 0 <= i < j < |ops| && ops[i].Enable? && ops[j].Resize?;
      assert all[i].Enable? && all[j].Resize?;
    }
    if op.Resize? && Enable in ops {
      var i :| 0 <= i < |ops| && ops[i] == Enable;
      assert all[i].Enable? && all[|ops|].Resize?;
    }
  }

  /**
   * Whatever the order of the calls: the session is never left with an outdated size, and once the
   * terminal is enabled it has been told the latest size exactly when that size is positive or some
   * size was asked for after enabling.
   */
  lemma {:induction false} LatestIsShown(ops: seq<Op>)
    ensures var t := Run(ops);
            && (t.cols, t.rows) == Latest(ops) && (t.ready <==> Enable in ops)
            && (Shown(t) == None || Shown(t) == Some(Latest(ops)))
            && (Shown(t) != None <==>
                Enable in ops && (ResizedReady(ops) || (Latest(ops).0 > 0 && Latest(ops).1 > 0)))
  {
    if ops != [] {
      var before, op := ops[..|ops| - 1], ops[|ops| - 1];
      LatestIsShown(before);
      assert ops == before + [op];
      ResizedReadySnoc(before, op);
    }
  }

  // ------------------------------------------------------------- the filter

  function PassOne(prefix: string): string -> string {
    chunk => if ParseResize(chunk, prefix).Control? then "" else chunk
  }

  function SizeOne(prefix: string): string -> seq<(int, int)> {
    chunk => match ParseResize(chunk, prefix) case Control(c, r) => [(c, r)] case NotControl => []
  }

  /** What the session is to read of these chunks: those that are not control frames. */
  function Passed(chunks: seq<string>, prefix: string): string {
    FlatMap(PassOne(prefix), chunks)
  }

  /** The sizes in these chunks, one for each control frame. */
  function Sizes(chunks: seq<string>, prefix: string): seq<(int, int)> {
    FlatMap(SizeOne(prefix), chunks)
  }

  lemma ControlPassed(chunks: seq<string>, chunk: string, prefix: string)
    requires ParseResize(chunk, prefix).Control?
    ensures Passed(chunks + [chunk], prefix) == Passed(chunks, prefix)
    ensures var f := ParseResize(chunk, prefix);
            Sizes(chunks + [chunk], prefix) == Sizes(chunks, prefix) + [(f.cols, f.rows)]
  {
    FlatMapAppend(PassOne(prefix), chunks, [chunk]);
    FlatMapOne(PassOne(prefix), chunk);
    FlatMapAppend(SizeOne(prefix), chunks, [chunk]);
    FlatMapOne(SizeOne(prefix), chunk);
  }

  lemma InputPassed(chunks: seq<string>, chunk: string, prefix: string)
    requires ParseResize(chunk, prefix).NotControl?
    ensures Passed(chunks + [chunk], prefix) == Passed(chunks, prefix) + chunk
    ensures Sizes(chunks + [chunk], prefix) == Sizes(chunks, prefix)
  {
    FlatMapAppend(PassOne(prefix), chunks, [chunk]);
    FlatMapOne(PassOne(prefix), chunk);
    FlatMapAppend(SizeOne(prefix), chunks, [chunk]);
    FlatMapOne(SizeOne(prefix), chunk);
  }

  /** Everything received and still to be received from the connection. */
  function Stream(chunks: seq<string>, left: seq<string>): string {
    Flatten(chunks) + Flatten(left)
  }

  lemma StreamKept(chunks: seq<string>, chunk: string, left: seq<string>, after: seq<string>)
    requires ReadStep(left, chunk, after)
    ensures Stream(chunks + [chunk], after) == Stream(chunks, left)
    ensures chunk == "" ==> Stream(chunks, after) == Stream(chunks, left)
    ensures chunk != "" ==> |Flatten(after)| < |Flatten(left)|
  {
    StepConserves(left, chunk, after);
    FlattenSnoc(chunks, chunk);
    Assoc(Flatten(chunks), chunk, Flatten(after));
  }

  lemma OpApplied(ops: seq<Op>, op: Op)
    ensures Run(ops + [op]) == Apply(Run(ops), op)
    ensures Resizes(ops + [op]) == Resizes(ops) + if op.Resize? then [(op.cols, op.rows)] else []
  {
    assert (ops + [op])[..|ops|] == ops;
  }

  const CHUNK := 64 * 1024

  class TerminalResizeReader {
    const reader: Conn
    const prefix: string
    var pending: string
    var cols: int
    var rows: int
    var ready: bool
    /** The session's `WindowChange(rows, cols)` calls. */
    var changes: seq<(int, int)>
    /** The chunks taken from the connection, the bytes handed to the session, and the calls that set sizes. */
    ghost var chunks: seq<string>
    ghost var given: string
    ghost var ops: seq<Op>

    constructor (reader: Conn, prefix: string)
      ensures Valid() && this.reader == reader && this.prefix == prefix && given == "" && chunks == [] && ops == []
    {
      this.reader, this.prefix, pending, cols, rows, ready, changes := reader, prefix, "", 0, 0, false, [];
      chunks, given, ops := [], "", [];
    }

    function Term(): Terminal
      reads this
    {
      Terminal(cols, rows, ready, changes)
    }

    /** Bytes go through in order and complete, and there is one `Resize` call for each control frame, in order. */
    ghost predicate Valid()
      reads this
    {
      && given + pending == Passed(chunks, prefix)
      && Resizes(ops) == Sizes(chunks, prefix)
      && Term() == Run(ops)
    }

    method Enable()
      requires Valid()
      modifies `ready, `changes, `ops
      ensures Valid() && ops == old(ops) + [Op.Enable]
      ensures ready && changes == old(changes) + if cols > 0 && rows > 0 then [(rows, cols)] else []
    {
      OpApplied(ops, Op.Enable);
      ready := true;
      if cols > 0 && rows > 0 {
        changes := changes + [(rows, cols)];
      }
      ops := ops + [Op.Enable];
    }

    method Resize(cols: int, rows: int)
      requires Term() == Run(ops)
      modifies `cols, `rows, `changes, `ops
      ensures Term() == Run(ops) && ops == old(ops) + [Op.Resize(cols, rows)]
      ensures this.cols == cols && this.rows == rows && changes == old(changes) + if ready then [(rows, cols)] else []
    {
      OpApplied(ops, Op.Resize(cols, rows));
      this.cols, this.rows := cols, rows;
      ops := ops + [Op.Resize(cols, rows)];
      if !ready {
        return;
      }
      changes := changes + [(rows, cols)];
    }

    /** Copies what fits into the caller's buffer of `cap` bytes; the rest stays pending. */
    method Hand(cap: nat, bytes: string) returns (data: string)
      modifies `pending, `given
      ensures given == old(given) + data && given + pending == old(given) + bytes
      ensures |data| == if cap < |bytes| then cap else |bytes|
    {
      var n := if cap < |bytes| then cap else |bytes|;
      data, pending := bytes[..n], bytes[n..];
      given := given + data;
      assert bytes == data + pending;
    }

    /** One read of the connection, and what it does to the bytes received and still to come. */
    method Receive(answers: nat -> Answer, arrives: nat -> bool) returns (chunk: string, status: Status)
      modifies reader
      ensures Stream(chunks + [chunk], reader.Left()) == old(Stream(chunks, reader.Left()))
      ensures chunk == "" ==> Stream(chunks, reader.Left()) == old(Stream(chunks, reader.Left()))
      ensures chunk != "" ==> |Flatten(reader.Left())| < |old(Flatten(reader.Left()))|
      ensures chunk == "" && Prompt(answers, arrives) ==> Flatten(reader.Left()) == ""
    {
      ghost var left := reader.Left();
      chunk, status := reader.Read(CHUNK, answers, arrives);
      StreamKept(chunks, chunk, left, reader.Left());
      if chunk == "" {
        StepConserves(left, chunk, reader.Left());
      }
    }

    /** `answers(k)` and `arrives(k)` are what the k-th read of the connection in this call meets. */
    method Read(cap: nat, answers: nat -> nat -> Answer, arrives: nat -> nat -> bool)
        returns (data: string, status: Status)
      requires Valid()
      modifies `pending, `cols, `rows, `changes, `chunks, `given, `ops, reader
      ensures Valid()
      ensures given == old(given) + data
      ensures |data| <= cap && (data != "" ==> status == Nil)
      ensures old(chunks) <= chunks && (old(pending) != "" ==> chunks == old(chunks))
      ensures Stream(chunks, reader.Left()) == old(Stream(chunks, reader.Left()))
      ensures data == "" && cap > 0 && (forall k :: Prompt(answers(k), arrives(k))) ==>
                pending == "" && Flatten(reader.Left()) == ""
    {
      ghost var total := Stream(chunks, reader.Left());
      var k := 0;
      while true
        invariant Valid() && given == old(given)
        invariant old(chunks) <= chunks && (old(pending) != "" ==> chunks == old(chunks))
        invariant pending == old(pending)
        invariant Stream(chunks, reader.Left()) == total
        decreases |Flatten(reader.Left())|
      {
        if |pending| > 0 {
          data := Hand(cap, pending);
          return data, Nil;
        }
        var chunk, err := Receive(answers(k), arrives(k));
        k := k + 1;
        if chunk == "" {
          return "", err;
        }
        match ParseResize(chunk, prefix) {
          case Control(cols, rows) =>
            ControlPassed(chunks, chunk, prefix);
            OpApplied(ops, Op.Resize(cols, rows));
            chunks := chunks + [chunk];
            Resize(cols, rows);
          case NotControl =>
            InputPassed(chunks, chunk, prefix);
            chunks := chunks + [chunk];
            assert given + pending == given;
            data := Hand(cap, chunk);
            return data, Nil;
        }
      }
    }
  }

  // ------------------------------------------------- which frame sets the size

  lemma SizesFrom(chunks: seq<string>, prefix: string, i: nat, cols: int, rows: int)
    requires i < |chunks| && ParseResize(chunks[i], prefix) == Control(cols, rows)
    ensures exists before :: Sizes(chunks, prefix) == before + [(cols, rows)] + Sizes(chunks[i + 1..], prefix)
  {
    var size := SizeOne(prefix);
    assert chunks == chunks[..i] + ([chunks[i]] + chunks[i + 1..]);
    FlatMapAppend(size, chunks[..i], [chunks[i]] + chunks[i + 1..]);
    FlatMapAppend(size, [chunks[i]], chunks[i + 1..]);
    FlatMapOne(size, chunks[i]);
    Assoc(Sizes(chunks[..i], prefix), [(cols, rows)], Sizes(chunks[i + 1..], prefix));
  }

  lemma {:induction false} NoSizes(chunks: seq<string>, prefix: string)
    ensures Sizes(chunks, prefix) == [] <==> forall c <- chunks :: ParseResize(c, prefix).NotControl?
  {
    if chunks != [] {
      NoSizes(chunks[1..], prefix);
      assert chunks == [chunks[0]] + chunks[1..];
    }
  }

  lemma OnlyZeros(chunks: seq<string>, prefix: string)
    requires forall c <- chunks :: ParseResize(c, prefix) in {NotControl, Control(0, 0)}
    ensures forall size <- Sizes(chunks, prefix) :: size == (0, 0)
  {
    forall size | size in Sizes(chunks, prefix)
      ensures size == (0, 0)
    {
      FlatMapMember(SizeOne(prefix), chunks, size);
    }
  }

  /**
   * Let chunk `i` be the last that holds a well-formed frame. Wherever among the `Resize` calls the
   * terminal is enabled, the session ends up with that frame's size if and only if no malformed frame
   * follows it.
   */
  lemma LastFrameDecides(ops: seq<Op>, chunks: seq<string>, prefix: string, i: nat, cols: int, rows: int)
    requires Resizes(ops) == Sizes(chunks, prefix) && Enable in ops
    requires i < |chunks| && ParseResize(chunks[i], prefix) == Control(cols, rows) && InRange(cols, rows)
    requires forall c <- chunks[i + 1..] :: ParseResize(c, prefix) in {NotControl, Control(0, 0)}
    ensures Shown(Run(ops)) == Some((cols, rows)) <==>
            forall c <- chunks[i + 1..] :: ParseResize(c, prefix).NotControl?
  {
    var after := chunks[i + 1..];
    LatestIsShown(ops);
    SizesFrom(chunks, prefix, i, cols, rows);
    NoSizes(after, prefix);
    OnlyZeros(after, prefix);
    var before :| Sizes(chunks, prefix) == before + [(cols, rows)] + Sizes(after, prefix);
    var zeros := Sizes(after, prefix);
    if zeros != [] {
      assert zeros[|zeros| - 1] in zeros;
    }
  }

  /** A frame that is only the prefix takes a size of 80 by 24 back to 0 by 0. */
  lemma MalformedFrameZeroes(prefix: string)
    requires prefix != ""
    ensures ParseResize(prefix, prefix) == Control(0, 0)
    ensures Shown(Run([Enable, Op.Resize(80, 24), Op.Resize(0, 0)])) == Some((0, 0))
    ensures Shown(Run([Op.Resize(0, 0), Enable])) == None
  {
    assert prefix[|prefix|..] == "" && Split("", ':') == [""];
    OpApplied([], Enable);
    OpApplied([Enable], Op.Resize(80, 24));
    OpApplied([Enable, Op.Resize(80, 24)], Op.Resize(0, 0));
    OpApplied([], Op.Resize(0, 0));
    OpApplied([Op.Resize(0, 0)], Enable);
    assert [] + [Enable] == [Enable] && [Enable] + [Op.Resize(80, 24)] == [Enable, Op.Resize(80, 24)];
    assert [Enable, Op.Resize(80, 24)] + [Op.Resize(0, 0)] == [Enable, Op.Resize(80, 24), Op.Resize(0, 0)];
    assert [] + [Op.Resize(0, 0)] == [Op.Resize(0, 0)] && [Op.Resize(0, 0)] + [Enable] == [Op.Resize(0, 0), Enable];
  }
}
