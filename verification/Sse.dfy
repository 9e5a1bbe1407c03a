/**
 * Server-sent events: the printer of httpd/sse.go against the parser of sections 9.2.5 and 9.2.6 of
 * the WHATWG HTML standard.
 */
module Sse {
  import opened Sequences
  import opened Text

  // ----------------------------------------------------------------- printer

  /** `strings.ReplaceAll(s, "\r\n", "\n")`. */
  function ReplaceCrlf(s: string): string {
    if s == "" then ""
    else if |s| >= 2 && s[0] == '\r' && s[1] == '\n' then "\n" + ReplaceCrlf(s[2..])
    else [s[0]] + ReplaceCrlf(s[1..])
  }

  /** `strings.TrimRight(s, "\n")`. */
  function TrimRight(s: string): (r: string)
    ensures r <= s && forall i :: |r| <= i < |s| ==> s[i] == '\n'
    ensures r != "" ==> r[|r| - 1] != '\n'
  {
    if s != "" && s[|s| - 1] == '\n' then TrimRight(s[..|s| - 1]) else s
  }

  function Normal(p: string): string {
    TrimRight(ReplaceCrlf(p))
  }

  function Lines(s: string): (r: seq<string>)
    ensures r != []
  {
    Split(s, '\n')
  }

  function JoinLines(lines: seq<string>): string
    requires lines != []
  {
    Join(lines, '\n')
  }

  function DataLine(line: string): string {
    "data: " + line + "\n"
  }

  datatype Call = WriteText(p: string) | WriteEvent(event: string, data: string)

  /** What a call sends when every write succeeds. */
  function Emit(call: Call): string {
    match call
    case WriteText(p) => if Normal(p) == "" then "" else FlatMap(DataLine, Lines(Normal(p))) + "\n"
    case WriteEvent(event, data) => "event: " + event + "\n" + ("data: " + data + "\n" + "\n")
  }

  /** How many writes to the response a text takes: one for each line, and one to end the event. */
  function Writes(p: string): nat {
    if Normal(p) == "" then 0 else |Lines(Normal(p))| + 1
  }

  /** What the first `k` of them send, the last one excepted. */
  function SentBefore(p: string, k: nat): string
    requires k < Writes(p)
  {
    FlatMap(DataLine, Lines(Normal(p))[..k])
  }

  /** The `k`-th write. */
  function Piece(p: string, k: nat): string
    requires k < Writes(p)
  {
    if k < |Lines(Normal(p))| then DataLine(Lines(Normal(p))[k]) else "\n"
  }

  /** What has been sent when the `k`-th write fails part of the way. */
  function SentAtFailure(p: string, k: nat, partial: nat): string
    requires k < Writes(p)
  {
    SentBefore(p, k) + Take(partial, Piece(p, k))
  }

  ghost predicate FirstFailure(canWrite: nat -> bool, k: nat) {
    !canWrite(k) && forall j: nat :: j < k ==> canWrite(j)
  }

  class Writer {
    var sent: string

    constructor ()
      ensures sent == ""
    {
      sent := "";
    }

    /**
     * `canWrite` is whether the k-th write of this call to the response succeeds; one that fails has sent
     * up to `partial` characters.
     */
    method Write(p: string, canWrite: nat -> bool, partial: nat) returns (n: nat, ok: bool)
      modifies this
      ensures ok <==> forall k: nat :: k < Writes(p) ==> canWrite(k)
      ensures ok ==> n == |p| && sent == old(sent) + Emit(WriteText(p))
      ensures !ok ==> n == 0 && exists k: nat ::
                k < Writes(p) && FirstFailure(canWrite, k) && sent == old(sent) + SentAtFailure(p, k, partial)
    {
      var text := Normal(p);
      if text == "" {
        return |p|, true;
      }
      var lines := Lines(text);
      var i := 0;
      while i < |lines|
        invariant 0 <= i <= |lines|
        invariant forall j: nat :: j < i ==> canWrite(j)
        invariant sent == old(sent) + SentBefore(p, i)
      {
        if !canWrite(i) {
          assert FirstFailure(canWrite, i);
          sent := sent + Take(partial, DataLine(lines[i]));
          Assoc(old(sent), SentBefore(p, i), Take(partial, DataLine(lines[i])));
          return 0, false;
        }
        EmitStep(lines, i);
        sent := sent + DataLine(lines[i]);
        i := i + 1;
      }
      assert lines[..|lines|] == lines;
      if !canWrite(i) {
        assert FirstFailure(canWrite, i);
        sent := sent + Take(partial, "\n");
        Assoc(old(sent), SentBefore(p, i), Take(partial, "\n"));
        return 0, false;
      }
      sent := sent + "\n";
      return |p|, true;
    }

    method WriteOneEvent(event: string, data: string, canWrite: bool, partial: nat) returns (ok: bool)
      modifies this
      ensures ok == canWrite
      ensures var text := Emit(WriteEvent(event, data)); sent == old(sent) + if ok then text else Take(partial, text)
    {
      var text := "event: " + event + "\n" + ("data: " + data + "\n" + "\n");
      if !canWrite {
        sent := sent + Take(partial, text);
        return false;
      }
      sent := sent + text;
      return true;
    }
  }

  lemma EmitStep(lines: seq<string>, i: nat)
    requires i < |lines|
    ensures FlatMap(DataLine, lines[..i + 1]) == FlatMap(DataLine, lines[..i]) + DataLine(lines[i])
  {
    assert lines[..i + 1] == lines[..i] + [lines[i]];
    FlatMapAppend(DataLine, lines[..i], [lines[i]]);
    FlatMapOne(DataLine, lines[i]);
  }

  /**
   * What a failed call has sent is the beginning of what it meant to send, so no later line is sent without the
   * earlier ones.
   */
  lemma SentIsPrefix(p: string, k: nat, partial: nat)
    requires k < Writes(p)
    ensures SentAtFailure(p, k, partial) <= Emit(WriteText(p))
  {
    var lines := Lines(Normal(p));
    assert lines == lines[..k] + lines[k..];
    FlatMapAppend(DataLine, lines[..k], lines[k..]);
    if k < |lines| {
      assert FlatMap(DataLine, lines[k..]) == Piece(p, k) + FlatMap(DataLine, lines[k..][1..]);
      Assoc(SentBefore(p, k), Piece(p, k), FlatMap(DataLine, lines[k..][1..]));
    } else {
      assert lines[..k] == lines;
    }
  }

  // ------------------------------------------------------------------ parser

  datatype Event = Event(kind: string, data: string)

  /** The event type and data buffers, and the events dispatched so far. */
  datatype Parser = Parser(kind: string, data: string, events: seq<Event>)

  predicate OneLine(s: string) {
    '\r' !in s && '\n' !in s
  }

  /** Where the first line ends. */
  function LineEnd(s: string): (i: nat)
    ensures i <= |s| && OneLine(s[..i])
    ensures i < |s| ==> s[i] == '\r' || s[i] == '\n'
  {
    if s == "" || s[0] == '\r' || s[0] == '\n' then 0
    else
      assert s[..LineEnd(s[1..]) + 1] == [s[0]] + s[1..][..LineEnd(s[1..])];
      LineEnd(s[1..]) + 1
  }

  /** The lines of a stream; what follows the last line end is not a line yet. */
  function StreamLines(s: string): seq<string>
    decreases |s|
  {
    var i := LineEnd(s);
    if i == |s| then []
    else
      var next := if s[i] == '\r' && i + 1 < |s| && s[i + 1] == '\n' then i + 2 else i + 1;
      [s[..i]] + StreamLines(s[next..])
  }

  /** The first colon of a line, or its length. */
  function Colon(line: string): (i: nat)
    ensures i <= |line|
  {
    if line == "" || line[0] == ':' then 0 else Colon(line[1..]) + 1
  }

  function Field(p: Parser, field: string, value: string): Parser {
    if field == "event" then p.(kind := value)
    else if field == "data" then p.(data := p.data + value + "\n")
    else p
  }

  function Dispatch(p: Parser): Parser {
    if p.data == "" then p.(kind := "")
    else
      var data := if p.data[|p.data| - 1] == '\n' then p.data[..|p.data| - 1] else p.data;
      Parser("", "", p.events + [Event(if p.kind == "" then "message" else p.kind, data)])
  }

  function ProcessLine(p: Parser, line: string): Parser {
    if line == "" then Dispatch(p)
    else if line[0] == ':' then p
    else
      var i := Colon(line);
      if i == |line| then Field(p, line, "")
      else
        var v := line[i + 1..];
        Field(p, line[..i], if v != "" && v[0] == ' ' then v[1..] else v)
  }

  function Process(p: Parser, lines: seq<string>): Parser
    decreases |lines|
  {
    if lines == [] then p else Process(ProcessLine(p, lines[0]), lines[1..])
  }

  /** The events a client sees when the stream has ended. */
  function Interpret(stream: string): seq<Event> {
    var body := if stream != "" && stream[0] == '\U{FEFF}' then stream[1..] else stream;
    Process(Parser("", "", []), StreamLines(body)).events
  }

  // -------------------------------------------------------------- round trip

  /** The event a call stands for; a text that is empty once trimmed stands for none. */
  function Expect(call: Call): seq<Event> {
    match call
    case WriteText(p) => if Normal(p) == "" then [] else [Event("message", Normal(p))]
    case WriteEvent(event, data) => [Event(if event == "" then "message" else event, data)]
  }

  /** What a caller of the writer has to keep to. */
  predicate Clean(call: Call) {
    match call
    case WriteText(p) => '\r' !in Normal(p)
    case WriteEvent(event, data) => OneLine(event) && OneLine(data)
  }

  /** Clean, except that the data of an event may hold line feeds. */
  predicate Plain(call: Call) {
    match call
    case WriteText(p) => '\r' !in Normal(p)
    case WriteEvent(event, data) => OneLine(event) && '\r' !in data
  }

  predicate Tidy(p: Parser) {
    p.kind == "" && p.data == ""
  }

  lemma SplitOneLine(s: string)
    requires '\r' !in s
    ensures forall l <- Lines(s) :: OneLine(l)
  {
    SplitParts(s, '\n');
  }

  lemma {:induction false} LineEndAt(line: string, rest: string)
    requires OneLine(line)
    ensures LineEnd(line + "\n" + rest) == |line|
  {
    var s := line + "\n" + rest;
    if line != "" {
      assert s[0] == line[0] && s[1..] == line[1..] + "\n" + rest;
      assert line[0] in line;
      LineEndAt(line[1..], rest);
    }
  }

  lemma FirstLine(line: string, rest: string)
    requires OneLine(line)
    ensures StreamLines(line + "\n" + rest) == [line] + StreamLines(rest)
  {
    var s := line + "\n" + rest;
    LineEndAt(line, rest);
    assert s[..|line|] == line && s[|line| + 1..] == rest;
  }

  function Ended(line: string): string {
    line + "\n"
  }

  /** Lines printed one after the other, each with its line feed, are read back as they were. */
  lemma {:induction false} LinesReadBack(lines: seq<string>, rest: string)
    requires forall l <- lines :: OneLine(l)
    ensures StreamLines(FlatMap(Ended, lines) + rest) == lines + StreamLines(rest)
  {
    if lines == [] {
      assert FlatMap(Ended, lines) + rest == rest;
    } else {
      assert lines[0] in lines;
      Assoc(Ended(lines[0]), FlatMap(Ended, lines[1..]), rest);
      FirstLine(lines[0], FlatMap(Ended, lines[1..]) + rest);
      LinesReadBack(lines[1..], rest);
      assert lines == [lines[0]] + lines[1..];
      Assoc([lines[0]], lines[1..], StreamLines(rest));
    }
  }

  lemma {:induction false} EndedJoin(lines: seq<string>)
    requires lines != []
    ensures FlatMap(Ended, lines) == JoinLines(lines) + "\n"
  {
    if |lines| == 1 {
      FlatMapOne(Ended, lines[0]);
      assert lines == [lines[0]];
    } else {
      EndedJoin(lines[1..]);
    }
  }

  function DataText(line: string): string {
    "data: " + line
  }

  function DataTexts(lines: seq<string>): seq<string> {
    FlatMap((l: string) => [DataText(l)], lines)
  }

  /** The lines a plain call prints. */
  function Printed(call: Call): seq<string> {
    match call
    case WriteText(p) => if Normal(p) == "" then [] else DataTexts(Lines(Normal(p))) + [""]
    case WriteEvent(event, data) =>
      var lines := Lines(data);
      ["event: " + event, DataText(lines[0])] + lines[1..] + [""]
  }

  lemma {:induction false} DataTextsEnded(lines: seq<string>)
    ensures FlatMap(DataLine, lines) == FlatMap(Ended, DataTexts(lines))
    ensures |DataTexts(lines)| == |lines|
    ensures forall i :: 0 <= i < |lines| ==> DataTexts(lines)[i] == DataText(lines[i])
  {
    if lines != [] {
      DataTextsEnded(lines[1..]);
      assert DataTexts(lines) == [DataText(lines[0])] + DataTexts(lines[1..]);
      assert Ended(DataText(lines[0])) == DataLine(lines[0]);
    }
  }

  lemma OneLineAppend(a: string, b: string)
    requires OneLine(a) && OneLine(b)
    ensures OneLine(a + b)
  {
  }

  lemma TextPrinted(p: string)
    requires Plain(WriteText(p))
    ensures Emit(WriteText(p)) == FlatMap(Ended, Printed(WriteText(p)))
    ensures forall l <- Printed(WriteText(p)) :: OneLine(l)
  {
    if Normal(p) != "" {
      var lines := Lines(Normal(p));
      SplitOneLine(Normal(p));
      DataTextsEnded(lines);
      FlatMapAppend(Ended, DataTexts(lines), [""]);
      FlatMapOne(Ended, "");
      forall l | l in DataTexts(lines)
        ensures OneLine(l)
      {
        var i :| 0 <= i < |lines| && DataTexts(lines)[i] == l;
        OneLineAppend("data: ", lines[i]);
      }
    }
  }

  /** A data text of several lines: the first goes on the data line, the others on lines of their own. */
  lemma DataPrinted(data: string)
    ensures FlatMap(Ended, [DataText(Lines(data)[0])] + Lines(data)[1..]) == DataText(data) + "\n"
  {
    var lines := Lines(data);
    var texts := [DataText(lines[0])] + lines[1..];
    EndedJoin(texts);
    SplitJoin(data, '\n');
    if |lines| > 1 {
      assert texts[1..] == lines[1..];
      Assoc("data: ", lines[0], "\n");
      Assoc("data: ", lines[0] + "\n", JoinLines(lines[1..]));
    }
  }

  lemma EventPrinted(event: string, data: string)
    ensures Emit(WriteEvent(event, data)) == FlatMap(Ended, Printed(WriteEvent(event, data)))
  {
    var texts := [DataText(Lines(data)[0])] + Lines(data)[1..];
    var head := "event: " + event;
    DataPrinted(data);
    FlatMapAppend(Ended, texts, [""]);
    FlatMapOne(Ended, "");
    assert Ended("") == "\n";
    FlatMapAppend(Ended, [head], texts + [""]);
    FlatMapOne(Ended, head);
    assert Printed(WriteEvent(event, data)) == [head] + (texts + [""]);
  }

  lemma EventPrintedLines(event: string, data: string)
    requires Plain(WriteEvent(event, data))
    ensures forall l <- Printed(WriteEvent(event, data)) :: OneLine(l)
  {
    var lines := Lines(data);
    SplitOneLine(data);
    assert lines[0] in lines;
    OneLineAppend("event: ", event);
    OneLineAppend("data: ", lines[0]);
  }

  /** A plain call's lines are read back whatever is printed after it. */
  lemma CallReadBack(call: Call, rest: string)
    requires Plain(call)
    ensures StreamLines(Emit(call) + rest) == Printed(call) + StreamLines(rest)
  {
    match call {
      case WriteText(p) => TextPrinted(p);
      case WriteEvent(event, data) =>
        EventPrinted(event, data);
        EventPrintedLines(event, data);
    }
    LinesReadBack(Printed(call), rest);
  }

  lemma {:induction false} ColonAt(field: string, value: string)
    requires ':' !in field
    ensures Colon(field + ":" + value) == |field|
  {
    if field != "" {
      var line := field + ":" + value;
      assert line[0] == field[0] && field[0] in field;
      assert line[1..] == field[1..] + ":" + value;
      ColonAt(field[1..], value);
    }
  }

  /** A printed field is read as the name and the value it was printed from, leading blanks included. */
  lemma FieldReadBack(p: Parser, field: string, value: string)
    requires field != "" && ':' !in field
    ensures ProcessLine(p, field + ":" + (" " + value)) == Field(p, field, value)
  {
    var line := field + ":" + (" " + value);
    ColonAt(field, " " + value);
    assert line[0] == field[0] && field[0] in field;
    assert line[..|field|] == field && line[|field| + 1..] == " " + value;
    assert (" " + value)[1..] == value;
  }

  lemma DataField(p: Parser, line: string)
    ensures ProcessLine(p, DataText(line)) == p.(data := p.data + line + "\n")
  {
    FieldReadBack(p, "data", line);
    assert DataText(line) == "data" + ":" + (" " + line);
  }

  lemma EventField(p: Parser, event: string)
    ensures ProcessLine(p, "event: " + event) == p.(kind := event)
  {
    FieldReadBack(p, "event", event);
    assert "event: " + event == "event" + ":" + (" " + event);
  }

  lemma {:induction false} ProcessAppend(p: Parser, a: seq<string>, b: seq<string>)
    ensures Process(p, a + b) == Process(Process(p, a), b)
    decreases |a|
  {
    if a == [] {
      assert a + b == b;
    } else {
      ProcessAppend(ProcessLine(p, a[0]), a[1..], b);
      assert (a + b)[0] == a[0] && (a + b)[1..] == a[1..] + b;
    }
  }

  lemma ProcessOne(p: Parser, line: string)
    ensures Process(p, [line]) == ProcessLine(p, line)
  {
    assert [line][1..] == [];
  }

  lemma DataAdded(data: string, line: string, more: string)
    ensures (data + line + "\n") + (more + "\n") == data + (line + "\n" + more + "\n")
  {
  }

  lemma DataTextsFirst(p: Parser, lines: seq<string>)
    requires lines != []
    ensures Process(p, DataTexts(lines)) ==
            Process(p.(data := p.data + lines[0] + "\n"), DataTexts(lines[1..]))
  {
    DataTextsEnded(lines);
    assert DataTexts(lines)[1..] == DataTexts(lines[1..]);
    DataField(p, lines[0]);
  }

  /** Data lines add their texts, joined by line feeds, to the data buffer. */
  lemma {:induction false} DataLines(p: Parser, lines: seq<string>)
    requires lines != []
    ensures Process(p, DataTexts(lines)) == p.(data := p.data + (JoinLines(lines) + "\n"))
    decreases |lines|
  {
    var q := p.(data := p.data + lines[0] + "\n");
    DataTextsFirst(p, lines);
    if |lines| == 1 {
      assert DataTexts(lines[1..]) == [];
      assert p.data + lines[0] + "\n" == p.data + (lines[0] + "\n");
    } else {
      DataLines(q, lines[1..]);
      DataAdded(p.data, lines[0], JoinLines(lines[1..]));
    }
  }

  /** The blank line that ends an event dispatches what the data lines have gathered. */
  lemma Dispatched(p: Parser, data: string)
    requires p.data == data + "\n"
    ensures Process(p, [""]) ==
            Parser("", "", p.events + [Event(if p.kind == "" then "message" else p.kind, data)])
  {
    ProcessOne(p, "");
    assert p.data[..|p.data| - 1] == data;
  }

  lemma CleanTextCall(p: Parser, text: string)
    requires Tidy(p) && Normal(text) != ""
    ensures Process(p, Printed(WriteText(text))) == p.(events := p.events + Expect(WriteText(text)))
  {
    var lines := Lines(Normal(text));
    ProcessAppend(p, DataTexts(lines), [""]);
    DataLines(p, lines);
    SplitJoin(Normal(text), '\n');
    Dispatched(p.(data := p.data + (JoinLines(lines) + "\n")), Normal(text));
  }

  lemma EventHead(p: Parser, event: string, data: string)
    requires p.data == ""
    ensures Process(p, ["event: " + event, DataText(data)]) == p.(kind := event, data := data + "\n")
  {
    EventField(p, event);
    DataField(p.(kind := event), data);
    ProcessAppend(p, ["event: " + event], [DataText(data)]);
    assert ["event: " + event, DataText(data)] == ["event: " + event] + [DataText(data)];
    ProcessOne(p, "event: " + event);
    ProcessOne(p.(kind := event), DataText(data));
    assert "" + data + "\n" == data + "\n";
  }

  lemma CleanEventCall(p: Parser, event: string, data: string)
    requires Tidy(p) && '\n' !in data
    ensures Process(p, Printed(WriteEvent(event, data))) ==
            p.(events := p.events + Expect(WriteEvent(event, data)))
  {
    SplitWhole(data, '\n');
    var head := ["event: " + event, DataText(data)];
    EventHead(p, event, data);
    assert Printed(WriteEvent(event, data)) == head + [""];
    ProcessAppend(p, head, [""]);
    Dispatched(p.(kind := event, data := data + "\n"), data);
  }

  /** A clean call adds its event, and only that, and leaves both buffers empty. */
  lemma CleanCall(p: Parser, call: Call)
    requires Tidy(p) && Clean(call)
    ensures Process(p, Printed(call)) == p.(events := p.events + Expect(call))
  {
    match call {
      case WriteText(text) =>
        if Normal(text) != "" {
          CleanTextCall(p, text);
        }
      case WriteEvent(event, data) =>
        CleanEventCall(p, event, data);
    }
  }

  /** Clean calls, any number of them: one event per call that has something to say, in order, unchanged. */
  lemma {:induction false} CleanCalls(p: Parser, calls: seq<Call>)
    requires Tidy(p) && forall c <- calls :: Clean(c)
    ensures Process(p, StreamLines(FlatMap(Emit, calls))) == p.(events := p.events + FlatMap(Expect, calls))
    decreases |calls|
  {
    if calls != [] {
      var call, rest := calls[0], StreamLines(FlatMap(Emit, calls[1..]));
      assert call in calls && Plain(call);
      CallReadBack(call, FlatMap(Emit, calls[1..]));
      ProcessAppend(p, Printed(call), rest);
      CleanCall(p, call);
      var q := p.(events := p.events + Expect(call));
      CleanCalls(q, calls[1..]);
      Assoc(p.events, Expect(call), FlatMap(Expect, calls[1..]));
    }
  }

  // ------------------------------------------- why unclean calls do not round-trip

  /** How much data a list of events holds, each event counting one more than its data. */
  function Weight(events: seq<Event>): nat {
    if events == [] then 0 else Weight(events[..|events| - 1]) + |events[|events| - 1].data| + 1
  }

  lemma {:induction false} WeightAppend(a: seq<Event>, b: seq<Event>)
    ensures Weight(a + b) == Weight(a) + Weight(b)
    decreases |b|
  {
    if b == [] {
      assert a + b == a;
    } else {
      var m := |b| - 1;
      WeightAppend(a, b[..m]);
      assert (a + b)[..|a| + m] == a + b[..m];
    }
  }

  /** The data buffer is empty or ends with a line feed. */
  predicate Whole(p: Parser) {
    p.data != "" ==> p.data[|p.data| - 1] == '\n'
  }

  function Held(p: Parser): nat {
    Weight(p.events) + |p.data|
  }

  /** A line can add no more data than it has characters. */
  lemma HeldStep(p: Parser, line: string)
    requires Whole(p)
    ensures Whole(ProcessLine(p, line)) && Held(ProcessLine(p, line)) < Held(p) + |line| + 1
  {
    if line == "" {
      if p.data != "" {
        var e := Event(if p.kind == "" then "message" else p.kind, p.data[..|p.data| - 1]);
        WeightAppend(p.events, [e]);
        assert Weight([e]) == |e.data| + 1 by {
          assert [e][..0] == [];
        }
      }
    } else if line[0] != ':' {
      var i := Colon(line);
      if i != |line| {
        assert |line[..i]| == i;
      }
    }
  }

  lemma {:induction false} HeldBound(p: Parser, lines: seq<string>)
    requires Whole(p) && lines != []
    ensures Held(Process(p, lines)) < Held(p) + |JoinLines(lines)| + 1
    ensures Whole(Process(p, lines))
    decreases |lines|
  {
    HeldStep(p, lines[0]);
    if |lines| > 1 {
      HeldBound(ProcessLine(p, lines[0]), lines[1..]);
    } else {
      ProcessOne(p, lines[0]);
      assert lines == [lines[0]];
    }
  }

  /** An event whose data holds a line feed loses some of it, and leaves both buffers empty all the same. */
  lemma LossyCall(p: Parser, event: string, data: string)
    requires Tidy(p) && '\n' in data
    ensures var q := Process(p, Printed(WriteEvent(event, data)));
            Tidy(q) && Weight(q.events) < Weight(p.events) + Weight(Expect(WriteEvent(event, data)))
  {
    var lines := Lines(data);
    SplitWhole(data, '\n');
    SplitJoin(data, '\n');
    var r := p.(kind := event, data := lines[0] + "\n");
    EventHead(p, event, lines[0]);
    HeldBound(r, lines[1..]);
    var t := Process(r, lines[1..]);
    HeldStep(t, "");
    var first := ["event: " + event, DataText(lines[0])];
    ProcessAppend(p, first + lines[1..], [""]);
    ProcessAppend(p, first, lines[1..]);
    ProcessOne(t, "");
    assert Expect(WriteEvent(event, data))[..0] == [];
  }

  lemma {:induction false} PlainCalls(p: Parser, calls: seq<Call>)
    requires Tidy(p) && forall c <- calls :: Plain(c)
    ensures var q := Process(p, StreamLines(FlatMap(Emit, calls)));
            var weight := Weight(p.events) + Weight(FlatMap(Expect, calls));
            Weight(q.events) <= weight && ((exists c <- calls :: !Clean(c)) ==> Weight(q.events) < weight)
    decreases |calls|
  {
    if calls != [] {
      var call, rest := calls[0], StreamLines(FlatMap(Emit, calls[1..]));
      assert call in calls;
      CallReadBack(call, FlatMap(Emit, calls[1..]));
      ProcessAppend(p, Printed(call), rest);
      if Clean(call) {
        CleanCall(p, call);
        WeightAppend(p.events, Expect(call));
      } else {
        LossyCall(p, call.event, call.data);
      }
      PlainCalls(Process(p, Printed(call)), calls[1..]);
      WeightAppend(Expect(call), FlatMap(Expect, calls[1..]));
    }
  }

  /** Nothing a client has read holds a carriage return, and no event type holds a line end. */
  ghost predicate Readable(e: Event) {
    OneLine(e.kind) && '\r' !in e.data
  }

  ghost predicate NoReturns(p: Parser) {
    OneLine(p.kind) && '\r' !in p.data && forall e <- p.events :: Readable(e)
  }

  lemma StepNoReturns(p: Parser, line: string)
    requires NoReturns(p) && OneLine(line)
    ensures NoReturns(ProcessLine(p, line))
  {
  }

  lemma {:induction false} ProcessNoReturns(p: Parser, lines: seq<string>)
    requires NoReturns(p) && forall l <- lines :: OneLine(l)
    ensures NoReturns(Process(p, lines))
    decreases |lines|
  {
    if lines != [] {
      assert lines[0] in lines;
      StepNoReturns(p, lines[0]);
      ProcessNoReturns(ProcessLine(p, lines[0]), lines[1..]);
    }
  }

  lemma {:induction false} StreamLinesOneLine(s: string)
    ensures forall l <- StreamLines(s) :: OneLine(l)
    decreases |s|
  {
    var i := LineEnd(s);
    if i < |s| {
      StreamLinesOneLine(s[if s[i] == '\r' && i + 1 < |s| && s[i + 1] == '\n' then i + 2 else i + 1..]);
    }
  }

  lemma InterpretReadable(stream: string)
    ensures forall e <- Interpret(stream) :: Readable(e)
  {
    var body := if stream != "" && stream[0] == '\U{FEFF}' then stream[1..] else stream;
    StreamLinesOneLine(body);
    ProcessNoReturns(Parser("", "", []), StreamLines(body));
  }

  /** The writer never starts with a byte order mark, which the client would take away. */
  lemma {:induction false} NoMark(calls: seq<Call>)
    ensures var s := FlatMap(Emit, calls); s != "" ==> s[0] != '\U{FEFF}'
  {
    if calls != [] {
      NoMark(calls[1..]);
      match calls[0] {
        case WriteText(p) =>
          if Normal(p) != "" {
            var lines := Lines(Normal(p));
            assert FlatMap(DataLine, lines) == DataLine(lines[0]) + FlatMap(DataLine, lines[1..]);
            assert Emit(calls[0])[0] == 'd';
          }
        case WriteEvent(_, _) =>
          assert Emit(calls[0])[0] == 'e';
      }
    }
  }

  lemma {:induction false} ExpectedReadable(calls: seq<Call>)
    requires forall e <- FlatMap(Expect, calls) :: Readable(e)
    ensures forall c <- calls :: Plain(c)
  {
    if calls != [] {
      var call := calls[0];
      assert FlatMap(Expect, calls) == Expect(call) + FlatMap(Expect, calls[1..]);
      assert forall e <- Expect(call) :: e in FlatMap(Expect, calls);
      assert Expect(call) != [] ==> Expect(call)[0] in Expect(call);
      ExpectedReadable(calls[1..]);
    }
  }

  /**
   * A client reads exactly the events the calls stand for, one for each call that has something to
   * say, in order and with the text unchanged, if and only if every text is free of carriage returns
   * once CRLF is replaced and every event type and event data is a single line.
   */
  lemma RoundTrip(calls: seq<Call>)
    ensures Interpret(FlatMap(Emit, calls)) == FlatMap(Expect, calls) <==> forall c <- calls :: Clean(c)
  {
    var start := Parser("", "", []);
    var stream := FlatMap(Emit, calls);
    NoMark(calls);
    assert Interpret(stream) == Process(start, StreamLines(stream)).events;
    if forall c <- calls :: Clean(c) {
      CleanCalls(start, calls);
      assert start.events + FlatMap(Expect, calls) == FlatMap(Expect, calls);
    } else if Interpret(stream) == FlatMap(Expect, calls) {
      InterpretReadable(stream);
      ExpectedReadable(calls);
      PlainCalls(start, calls);
      assert false;
    }
  }

  ghost predicate ReturnsPaired(p: string) {
    forall i :: 0 <= i < |p| && p[i] == '\r' ==> i + 1 < |p| && p[i + 1] == '\n'
  }

  lemma {:induction false} ReplaceCrlfReturns(p: string)
    ensures '\r' !in ReplaceCrlf(p) <==> ReturnsPaired(p)
    decreases |p|
  {
    if |p| >= 2 && p[0] == '\r' && p[1] == '\n' {
      var rest := p[2..];
      ReplaceCrlfReturns(rest);
      assert forall i :: 0 <= i < |rest| ==> rest[i] == p[i + 2];
      assert ReturnsPaired(p) ==> ReturnsPaired(rest);
      assert ReturnsPaired(rest) ==> ReturnsPaired(p) by {
        if ReturnsPaired(rest) {
          forall i | 0 <= i < |p| && p[i] == '\r'
            ensures i + 1 < |p| && p[i + 1] == '\n'
          {
            if i >= 2 {
              assert rest[i - 2] == '\r';
            }
          }
        }
      }
    } else if p != "" {
      var rest := p[1..];
      ReplaceCrlfReturns(rest);
      assert ReturnsPaired(p) ==> ReturnsPaired(rest) by {
        assert forall i :: 0 <= i < |rest| ==> rest[i] == p[i + 1];
      }
      assert p[0] != '\r' && ReturnsPaired(rest) ==> ReturnsPaired(p) by {
        if p[0] != '\r' && ReturnsPaired(rest) {
          forall i | 0 <= i < |p| && p[i] == '\r'
            ensures i + 1 < |p| && p[i + 1] == '\n'
          {
            assert rest[i - 1] == '\r';
          }
        }
      }
    }
  }

  /** The condition on a text, on the caller's side: every carriage return is half of a CRLF. */
  lemma CleanText(p: string)
    ensures Clean(WriteText(p)) <==> ReturnsPaired(p)
  {
    ReplaceCrlfReturns(p);
    var s := ReplaceCrlf(p);
    assert s == Normal(p) + s[|Normal(p)|..];
  }

  lemma OneCall(call: Call)
    ensures Interpret(Emit(call)) == Expect(call) <==> Clean(call)
  {
    RoundTrip([call]);
    FlatMapOne(Emit, call);
    FlatMapOne(Expect, call);
    assert forall c <- [call] :: c == call;
    assert call in [call];
  }

  /** Two calls that do not come back: a lone carriage return in a text, and a line feed in an event's data. */
  lemma UncleanCallsDiffer()
    ensures Interpret(Emit(WriteText("a\rb"))) != Expect(WriteText("a\rb"))
    ensures Interpret(Emit(WriteEvent("e", "a\nb"))) != Expect(WriteEvent("e", "a\nb"))
  {
    OneCall(WriteText("a\rb"));
    OneCall(WriteEvent("e", "a\nb"));
    CleanText("a\rb");
    assert !ReturnsPaired("a\rb") by {
      assert "a\rb"[1] == '\r';
    }
    assert "a\nb"[1] == '\n';
  }
}
