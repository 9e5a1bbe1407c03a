/** Texts by their lines: what the writer makes of line ends, and what a client reads of a text with any mix of them. */
module SseParts {
  import opened Sequences
  import opened Text
  import opened Sse

  /** The lines `parts` with a line end between each two of them: CRLF where `crlf` says so, else a line feed. */
  function Mixed(parts: seq<string>, crlf: seq<bool>): string
    requires |parts| == |crlf| + 1
  {
    if crlf == [] then parts[0]
    else parts[0] + (if crlf[0] then "\r\n" else "\n") + Mixed(parts[1..], crlf[1..])
  }

  predicate HasCrlf(s: string) {
    exists i :: 0 <= i < |s| - 1 && s[i] == '\r' && s[i + 1] == '\n'
  }

  lemma HasCrlfStep(s: string)
    requires |s| >= 2
    ensures HasCrlf(s) <==> (s[0] == '\r' && s[1] == '\n') || HasCrlf(s[1..])
  {
    var t := s[1..];
    if HasCrlf(t) {
      var i :| 0 <= i < |t| - 1 && t[i] == '\r' && t[i + 1] == '\n';
      assert s[i + 1] == '\r' && s[i + 2] == '\n';
    }
    if HasCrlf(s) && !(s[0] == '\r' && s[1] == '\n') {
      var i :| 0 <= i < |s| - 1 && s[i] == '\r' && s[i + 1] == '\n';
      assert t[i - 1] == '\r' && t[i] == '\n';
    }
  }

  /** A text is unchanged exactly when it holds no CRLF, and otherwise gets shorter. */
  lemma {:induction false} CrlfOnly(s: string)
    ensures |ReplaceCrlf(s)| <= |s|
    ensures HasCrlf(s) <==> |ReplaceCrlf(s)| < |s|
    ensures HasCrlf(s) <==> ReplaceCrlf(s) != s
    decreases |s|
  {
    if |s| < 2 {
      assert s != "" ==> s[1..] == "";
    } else {
      HasCrlfStep(s);
      if s[0] == '\r' && s[1] == '\n' {
        CrlfOnly(s[2..]);
      } else {
        CrlfOnly(s[1..]);
        assert s == [s[0]] + s[1..];
      }
    }
  }

  lemma {:induction false} ReplaceAfter(line: string, rest: string)
    requires OneLine(line)
    ensures ReplaceCrlf(line + rest) == line + ReplaceCrlf(rest)
  {
    if line == "" {
      assert line + rest == rest;
    } else {
      assert line[0] in line;
      assert (line + rest)[1..] == line[1..] + rest;
      ReplaceAfter(line[1..], rest);
    }
  }

  lemma ReplaceLineEnd(rest: string)
    ensures ReplaceCrlf("\r\n" + rest) == "\n" + ReplaceCrlf(rest)
    ensures ReplaceCrlf("\n" + rest) == "\n" + ReplaceCrlf(rest)
  {
    assert ("\r\n" + rest)[2..] == rest && ("\n" + rest)[1..] == rest;
  }

  /** Whatever the mix of line ends, the lines come out joined by line feeds. */
  lemma {:induction false} MixedNormalised(parts: seq<string>, crlf: seq<bool>)
    requires |parts| == |crlf| + 1 && forall p <- parts :: OneLine(p)
    ensures ReplaceCrlf(Mixed(parts, crlf)) == JoinLines(parts)
    decreases |crlf|
  {
    assert parts[0] in parts;
    if crlf == [] {
      ReplaceAfter(parts[0], "");
      assert parts[0] + "" == parts[0];
    } else {
      var end, rest := if crlf[0] then "\r\n" else "\n", Mixed(parts[1..], crlf[1..]);
      Assoc(parts[0], end, rest);
      ReplaceAfter(parts[0], end + rest);
      ReplaceLineEnd(rest);
      MixedNormalised(parts[1..], crlf[1..]);
      Assoc(parts[0], "\n", JoinLines(parts[1..]));
    }
  }

  lemma {:induction false} JoinSnoc(parts: seq<string>, line: string)
    requires parts != []
    ensures JoinLines(parts + [line]) == JoinLines(parts) + "\n" + line
    decreases |parts|
  {
    assert (parts + [line])[1..] == parts[1..] + [line];
    if |parts| == 1 {
      assert parts + [line] == [parts[0], line] && [parts[0], line][1..] == [line];
      assert JoinLines([line]) == line;
    } else {
      JoinSnoc(parts[1..], line);
      Assoc(parts[0] + "\n", JoinLines(parts[1..]) + "\n", line);
      Assoc(parts[0] + "\n", JoinLines(parts[1..]), "\n");
    }
  }

  /** The lines before `k` are kept, and the ones from `k` on are empty. */
  predicate TrailingFrom(parts: seq<string>, k: nat) {
    k <= |parts| && (forall i | k <= i < |parts| :: parts[i] == "") && (k > 0 ==> parts[k - 1] != "")
  }

  lemma LastLine(parts: seq<string>)
    requires parts != [] && parts[|parts| - 1] != "" && OneLine(parts[|parts| - 1])
    ensures JoinLines(parts) != "" && JoinLines(parts)[|JoinLines(parts)| - 1] != '\n'
  {
    var n := |parts| - 1;
    var line := parts[n];
    assert line[|line| - 1] in line;
    if n > 0 {
      JoinSnoc(parts[..n], line);
      assert parts == parts[..n] + [line];
    }
  }

  /** Trimming drops the trailing empty lines, and only those. */
  lemma {:induction false} TrimmedLines(parts: seq<string>, k: nat)
    requires parts != [] && TrailingFrom(parts, k) && forall p <- parts :: OneLine(p)
    ensures TrimRight(JoinLines(parts)) == if k == 0 then "" else JoinLines(parts[..k])
    decreases |parts| - k
  {
    var n := |parts| - 1;
    if k == |parts| {
      assert parts[n] in parts;
      LastLine(parts);
      assert parts[..k] == parts;
    } else if n > 0 {
      var s := JoinLines(parts[..n]);
      JoinSnoc(parts[..n], "");
      assert parts == parts[..n] + [""];
      assert JoinLines(parts) == s + "\n" && (s + "\n")[..|s|] == s;
      TrimmedLines(parts[..n], k);
      assert parts[..n][..k] == parts[..k];
    }
  }

  lemma {:induction false} JoinNoReturns(parts: seq<string>)
    requires parts != [] && forall p <- parts :: OneLine(p)
    ensures '\r' !in JoinLines(parts)
  {
    assert parts[0] in parts;
    if |parts| > 1 {
      JoinNoReturns(parts[1..]);
    }
  }

  lemma MixedNormal(parts: seq<string>, crlf: seq<bool>, k: nat)
    requires |parts| == |crlf| + 1 && TrailingFrom(parts, k) && forall p <- parts :: OneLine(p)
    ensures Normal(Mixed(parts, crlf)) == if k == 0 then "" else JoinLines(parts[..k])
  {
    MixedNormalised(parts, crlf);
    TrimmedLines(parts, k);
  }

  lemma EmitLines(p: string, lines: seq<string>)
    requires lines != [] && Normal(p) == JoinLines(lines) && Normal(p) != "" && forall l <- lines :: OneLine(l)
    ensures Emit(WriteText(p)) == FlatMap(DataLine, lines) + "\n"
  {
    SplitUnique(lines, '\n');
  }

  /** One data line is sent for each line of the text, and a blank one; trailing empty lines are not sent. */
  lemma MixedEmitted(parts: seq<string>, crlf: seq<bool>, k: nat)
    requires |parts| == |crlf| + 1 && TrailingFrom(parts, k) && forall p <- parts :: OneLine(p)
    ensures Emit(WriteText(Mixed(parts, crlf))) == if k == 0 then "" else FlatMap(DataLine, parts[..k]) + "\n"
  {
    MixedNormal(parts, crlf, k);
    if k > 0 {
      var lines := parts[..k];
      assert forall l <- lines :: l in parts;
      LastLine(lines);
      EmitLines(Mixed(parts, crlf), lines);
    }
  }

  lemma ReadBackAs(text: string, data: string)
    requires Normal(text) == data && '\r' !in data
    ensures Interpret(Emit(WriteText(text))) == if data == "" then [] else [Event("message", data)]
  {
    OneCall(WriteText(text));
  }

  /**
   * A client reads one event with the lines of the text joined by line feeds, however they were separated and
   * without the trailing empty ones, and none when all are empty.
   */
  lemma MixedReadBack(parts: seq<string>, crlf: seq<bool>, k: nat)
    requires |parts| == |crlf| + 1 && TrailingFrom(parts, k) && forall p <- parts :: OneLine(p)
    ensures Interpret(Emit(WriteText(Mixed(parts, crlf)))) ==
            if k == 0 then [] else [Event("message", JoinLines(parts[..k]))]
  {
    MixedNormal(parts, crlf, k);
    if k > 0 {
      assert forall p <- parts[..k] :: p in parts;
      JoinNoReturns(parts[..k]);
      LastLine(parts[..k]);
    }
    ReadBackAs(Mixed(parts, crlf), if k == 0 then "" else JoinLines(parts[..k]));
  }

  lemma TwoLines(a: string, b: string)
    requires OneLine(a) && OneLine(b) && b != ""
    ensures Emit(WriteText(a + "\r\n" + b)) == "data: " + a + "\n" + ("data: " + b + "\n") + "\n"
  {
    assert [a, b][1..] == [b] && [true][1..] == [];
    assert Mixed([b], []) == b;
    assert Mixed([a, b], [true]) == a + "\r\n" + b;
    MixedEmitted([a, b], [true], 2);
    assert [a, b][..2] == [a, b];
    FlatMapOne(DataLine, b);
  }

  /** Two lines with a CRLF between them, as they go over the wire. */
  lemma CrlfOnTheWire()
    ensures Emit(WriteText("a\r\nb")) == "data: a\ndata: b\n\n"
  {
    TwoLines("a", "b");
    assert "a" + "\r\n" + "b" == "a\r\nb";
    assert "data: " + "a" + "\n" + ("data: " + "b" + "\n") + "\n" == "data: a\ndata: b\n\n";
  }

  // ------------------------------------------------ what the client accepts

  lemma {:induction false} LineEndsAt(line: string, end: char, rest: string)
    requires OneLine(line) && (end == '\r' || end == '\n')
    ensures LineEnd(line + [end] + rest) == |line|
  {
    var s := line + [end] + rest;
    if line != "" {
      assert s[0] == line[0] && s[1..] == line[1..] + [end] + rest;
      assert line[0] in line;
      LineEndsAt(line[1..], end, rest);
    }
  }

  /** Section 9.2.5: a line ends with CRLF, with a line feed, */
  lemma LineEndings(line: string, rest: string)
    requires OneLine(line)
    ensures StreamLines(line + "\r\n" + rest) == [line] + StreamLines(rest)
    ensures StreamLines(line + "\n" + rest) == [line] + StreamLines(rest)
  {
    var s := line + "\r\n" + rest;
    FirstLine(line, rest);
    LineEndsAt(line, '\r', "\n" + rest);
    assert s == line + ['\r'] + ("\n" + rest);
    assert s[..|line|] == line && s[|line| + 2..] == rest;
  }

  /** or with a carriage return that no line feed follows. */
  lemma ReturnEndsLine(line: string, rest: string)
    requires OneLine(line) && !("\n" <= rest)
    ensures StreamLines(line + "\r" + rest) == [line] + StreamLines(rest)
  {
    var s := line + "\r" + rest;
    LineEndsAt(line, '\r', rest);
    assert s[..|line|] == line && s[|line| + 1..] == rest;
  }

  /** One leading byte order mark is taken away. */
  lemma MarkTaken(stream: string)
    requires stream == "" || stream[0] != '\U{FEFF}'
    ensures Interpret("\U{FEFF}" + stream) == Interpret(stream)
  {
    assert ("\U{FEFF}" + stream)[1..] == stream;
  }

  /** Comments and unknown fields change nothing. */
  lemma IgnoredLines(p: Parser, name: string, value: string)
    requires ':' !in name && name != "event" && name != "data"
    ensures ProcessLine(p, name + ":" + (" " + value)) == p
  {
    if name == "" {
      assert (name + ":" + (" " + value))[0] == ':';
    } else {
      FieldReadBack(p, name, value);
    }
  }
}
