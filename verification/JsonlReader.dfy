/** The file readers of jsonl/reader.go: the forward scan and the chunked backward tail. */
module JsonlReader {
  import opened Machine
  import opened Sequences
  import opened JsonlLines
  import opened Text

  datatype Error = OpenFailed | ReadFailed | TooLong
  datatype Result<+T> = Ok(value: T) | Err(error: Error)

  /**
   * A path as the readers meet it. A read at an offset in `bad` fails; reading from the start fails
   * after `fails` bytes, if there are that many.
   */
  datatype File = Missing | Unopenable | Present(bytes: seq<byte>, bad: set<int>, fails: Option<nat>)

  /** What a missing file reads as: nothing. */
  function Content(file: File): seq<byte> {
    if file.Present? then file.bytes else []
  }

  // ---------------------------------------------------------------- backward

  /** The newest `n` kept lines, newest first. */
  function Newest(s: seq<byte>, n: int, f: Filter): seq<Line> {
    Take(n, Reverse(Kept(s, f)))
  }

  /** The state of a backward read: `result` holds the newest lines, `unread` the bytes before them. */
  ghost predicate Reading(all: seq<byte>, result: seq<Line>, unread: seq<byte>, f: Filter) {
    Reverse(Kept(all, f)) == result + Reverse(Kept(unread, f))
  }

  function AddKept(result: seq<Line>, line: Line, f: Filter): seq<Line> {
    if line != [] && Passes(f, line) then result + [line] else result
  }

  lemma ReverseKeepOne(line: Line, f: Filter)
    ensures Reverse(KeepOne(line, f)) == KeepOne(line, f)
  {
    assert Reverse([line]) == Reverse([]) + [line];
  }

  lemma Unchunk<T>(s: seq<T>, a: nat, b: nat, carry: seq<T>)
    requires a <= b <= |s|
    ensures s[..b] + carry == s[..a] + (s[a..b] + carry)
  {
    assert s[..b] == s[..a] + s[a..b];
  }

  lemma SplitAt<T>(front: seq<T>, s: seq<T>, i: nat, end: nat)
    requires i < end <= |s|
    ensures front + s[..end] == (front + s[..i]) + [s[i]] + s[i + 1..end]
  {
    assert s[..end] == s[..i] + [s[i]] + s[i + 1..end];
  }

  lemma KeptCut(front: seq<byte>, s: seq<byte>, i: nat, end: nat, f: Filter)
    requires i < end <= |s| && s[i] == LF && forall k :: i < k < end ==> s[k] != LF
    ensures Kept(front + s[..end], f) == Kept(front + s[..i], f) + KeepOne(s[i + 1..end], f)
  {
    SplitAt(front, s, i, end);
    KeptAppend(front + s[..i], s[i + 1..end], f);
    KeptOneLine(s[i + 1..end], f);
  }

  /** Cutting at a newline before a newline-free tail moves that tail to the result. */
  lemma CutAtNewline(all: seq<byte>, result: seq<Line>, front: seq<byte>, s: seq<byte>, i: nat, end: nat, f: Filter)
    requires i < end <= |s| && s[i] == LF && forall k :: i < k < end ==> s[k] != LF
    requires Reading(all, result, front + s[..end], f)
    ensures Reading(all, AddKept(result, s[i + 1..end], f), front + s[..i], f)
  {
    var before, line := Kept(front + s[..i], f), s[i + 1..end];
    KeptCut(front, s, i, end, f);
    ReverseAppend(before, KeepOne(line, f));
    ReverseKeepOne(line, f);
    Assoc(result, KeepOne(line, f), Reverse(before));
  }

  /** At the start of the file what is left is one line. */
  lemma CutAtStart(all: seq<byte>, result: seq<Line>, rest: seq<byte>, f: Filter)
    requires Reading(all, result, rest, f) && NoNewline(rest)
    ensures Reading(all, AddKept(result, rest, f), [], f)
  {
    KeptOneLine(rest, f);
    KeptOneLine([], f);
    ReverseKeepOne(rest, f);
  }

  /** The same where the unread bytes before the carry are none. */
  lemma CutCarry(all: seq<byte>, result: seq<Line>, s: seq<byte>, carry: seq<byte>, f: Filter)
    requires Reading(all, result, s[..0] + carry, f) && NoNewline(carry)
    ensures Reading(all, AddKept(result, carry, f), s[..0] + [], f)
  {
    assert s[..0] + carry == carry && s[..0] + [] == [];
    CutAtStart(all, result, carry, f);
  }

  lemma ReadEnough(all: seq<byte>, result: seq<Line>, unread: seq<byte>, f: Filter, n: int)
    requires Reading(all, result, unread, f)
    requires |result| == n || (|result| <= n && unread == [])
    ensures result == Newest(all, n, f)
  {
    KeptOneLine([], f);
  }

  /** jsonl/reader.go reads 32 KB at a time; the result does not depend on the chunk size. */
  const CHUNK_SIZE: nat := 32 * 1024

  /** Where the file has been read back to after `k` chunks. */
  function Offset(size: nat, chunkSize: nat, k: nat): (pos: nat)
    ensures pos <= size
  {
    if k == 0 then size
    else
      var last := Offset(size, chunkSize, k - 1);
      if last < chunkSize then 0 else last - chunkSize
  }

  /** The kept lines that are known when the file has been read back to `pos`: those after the first newline there. */
  function Found(bytes: seq<byte>, pos: nat, f: Filter): nat
    requires pos <= |bytes|
  {
    |Keep(Pieces(bytes[pos..])[1..], f)|
  }

  /** Chunk `k`, counted from the end of the file, is there and cannot be read. */
  predicate BadChunk(file: File, chunkSize: nat, k: nat)
    requires file.Present?
  {
    Offset(|file.bytes|, chunkSize, k) > 0 && Offset(|file.bytes|, chunkSize, k + 1) in file.bad
  }

  /** The file cannot be opened, or one chunk cannot be read before which `n` lines have not been found. */
  ghost predicate TailFails(file: File, n: int, f: Filter, chunkSize: nat) {
    n > 0 &&
    (file.Unopenable? ||
     (file.Present? &&
      exists k: nat ::
        BadChunk(file, chunkSize, k) && Found(file.bytes, Offset(|file.bytes|, chunkSize, k), f) < n))
  }

  lemma {:induction false} OffsetIs(size: nat, chunkSize: nat, k: nat)
    ensures Offset(size, chunkSize, k) == if size < k * chunkSize then 0 else size - k * chunkSize
  {
    if k > 0 {
      OffsetIs(size, chunkSize, k - 1);
      assert k * chunkSize == (k - 1) * chunkSize + chunkSize;
    }
  }

  lemma {:induction false} OffsetsFall(size: nat, chunkSize: nat, k: nat, j: nat)
    requires k <= j
    ensures Offset(size, chunkSize, j) <= Offset(size, chunkSize, k)
    decreases j
  {
    if k < j {
      OffsetsFall(size, chunkSize, k, j - 1);
    }
  }

  /** One more byte in front can only add lines. */
  lemma FoundStep(b: byte, s: seq<byte>, f: Filter)
    ensures |Keep(Pieces([b] + s)[1..], f)| >= |Keep(Pieces(s)[1..], f)|
  {
    assert ([b] + s)[1..] == s;
    var ps := Pieces(s);
    if b == LF {
      assert Pieces([b] + s) == [[]] + ps;
      assert ([[]] + ps)[1..] == ps;
    } else {
      assert Pieces([b] + s)[1..] == ps[1..];
    }
  }

  /** Reading further back never loses lines. */
  lemma {:induction false} FoundGrows(bytes: seq<byte>, a: nat, b: nat, f: Filter)
    requires a <= b <= |bytes|
    ensures Found(bytes, a, f) >= Found(bytes, b, f)
    decreases b - a
  {
    if a < b {
      FoundGrows(bytes, a + 1, b, f);
      FoundStep(bytes[a], bytes[a + 1..], f);
      assert bytes[a..] == [bytes[a]] + bytes[a + 1..];
    }
  }

  /** `carry` is what comes before some newline, or before the end, of what has been read. */
  predicate CutAt(bytes: seq<byte>, pos: nat, carry: seq<byte>)
    requires pos <= |bytes|
  {
    var end := pos + |carry|;
    end <= |bytes| && bytes[pos..end] == carry && (end < |bytes| ==> bytes[end] == LF)
  }

  /** Prepending a chunk and cutting the result gives such a carry again. */
  lemma CutAgain(bytes: seq<byte>, pos: nat, newPos: nat, carry: seq<byte>, end: nat)
    requires newPos <= pos <= |bytes| && CutAt(bytes, pos, carry)
    requires var merged := bytes[newPos..pos] + carry; end <= |merged| && (end < |merged| ==> merged[end] == LF)
    ensures CutAt(bytes, newPos, (bytes[newPos..pos] + carry)[..end])
  {
    var merged := bytes[newPos..pos] + carry;
    assert bytes[newPos..pos + |carry|] == merged;
    assert end < |merged| ==> bytes[newPos + end] == merged[end];
  }

  lemma FoundBefore(front: seq<byte>, carry: seq<byte>, tail: seq<byte>, f: Filter)
    ensures Kept(front + carry + [LF] + tail, f) == Kept(front + carry, f) + Kept(tail, f)
    ensures |Keep(Pieces(carry + [LF] + tail)[1..], f)| == |Keep(Pieces(carry)[1..], f)| + |Kept(tail, f)|
  {
    var ps := Pieces(carry);
    KeptAppend(front + carry, tail, f);
    PiecesAppend(carry, tail);
    assert (ps + Pieces(tail))[1..] == ps[1..] + Pieces(tail);
    FlatMapAppend(Keeper(f), ps[1..], Pieces(tail));
  }

  lemma CutSplits(bytes: seq<byte>, pos: nat, carry: seq<byte>)
    requires pos <= |bytes| && CutAt(bytes, pos, carry) && pos + |carry| < |bytes|
    ensures var tail := bytes[pos + |carry| + 1..];
            bytes == bytes[..pos] + carry + [LF] + tail && bytes[pos..] == carry + [LF] + tail
  {
    assert bytes[pos..] == carry + [LF] + bytes[pos + |carry| + 1..];
    assert bytes == bytes[..pos] + bytes[pos..];
  }

  /** How many lines have been found, against how many have been collected. */
  lemma FoundCollected(bytes: seq<byte>, pos: nat, carry: seq<byte>, result: seq<Line>, f: Filter)
    requires pos <= |bytes| && CutAt(bytes, pos, carry) && Reading(bytes, result, bytes[..pos] + carry, f)
    ensures |result| <= Found(bytes, pos, f)
    ensures NoNewline(carry) ==> |result| == Found(bytes, pos, f)
  {
    var end := pos + |carry|;
    if NoNewline(carry) {
      PiecesNoNewline(carry);
    }
    if end == |bytes| {
      assert bytes[..pos] + carry == bytes && bytes[pos..] == carry;
    } else {
      CutSplits(bytes, pos, carry);
      FoundBefore(bytes[..pos], carry, bytes[end + 1..], f);
    }
  }

  /** A read that has come back to where it may stop has not failed, and would not fail. */
  lemma TailDone(file: File, n: int, f: Filter, chunkSize: nat, k: nat)
    requires file.Present? && forall j: nat | j < k :: !BadChunk(file, chunkSize, j)
    requires var pos := Offset(|file.bytes|, chunkSize, k); pos == 0 || Found(file.bytes, pos, f) >= n
    ensures !TailFails(file, n, f, chunkSize)
  {
    forall j: nat | BadChunk(file, chunkSize, j)
      ensures Found(file.bytes, Offset(|file.bytes|, chunkSize, j), f) >= n
    {
      if j >= k {
        OffsetsFall(|file.bytes|, chunkSize, k, j);
        FoundGrows(file.bytes, Offset(|file.bytes|, chunkSize, j), Offset(|file.bytes|, chunkSize, k), f);
      }
    }
  }

  lemma NoneLeft(s: seq<byte>, end: nat)
    requires end <= |s| && forall k :: 0 <= k < end ==> s[k] != LF
    ensures NoNewline(s[..end])
  {
  }

  /** The inner loop: takes the lines of one chunk from its end, until `n` are collected. */
  method ScanChunk(ghost all: seq<byte>, ghost front: seq<byte>, merged: seq<byte>, n: int, f: Filter,
                   before: seq<Line>)
    returns (result: seq<Line>, end: nat)
    requires |before| < n && Reading(all, before, front + merged, f)
    ensures end <= |merged| && |result| <= n
    ensures Reading(all, result, front + merged[..end], f)
    ensures |result| == n || NoNewline(merged[..end])
    ensures end == |merged| || merged[end] == LF
  {
    result := before;
    end := |merged|;
    var i := |merged| - 1;
    assert merged[..end] == merged;
    while i >= 0
      invariant -1 <= i < end <= |merged| && |result| < n
      invariant forall k :: i < k < end ==> merged[k] != LF
      invariant Reading(all, result, front + merged[..end], f)
      invariant end == |merged| || merged[end] == LF
    {
      if merged[i] == LF {
        var line := merged[i + 1..end];
        CutAtNewline(all, result, front, merged, i, end, f);
        end := i;
        if line != [] && Passes(f, line) {
          result := result + [line];
          if |result| >= n {
            return;
          }
        }
      }
      i := i - 1;
    }
    NoneLeft(merged, end);
  }

  /** What the outer loop keeps: `k` chunks have been read, none of them bad. */
  ghost predicate ReadBack(file: File, chunkSize: nat, k: nat, pos: nat, carry: seq<byte>, open: bool)
    requires file.Present?
  {
    && pos == Offset(|file.bytes|, chunkSize, k)
    && (forall j: nat | j < k :: !BadChunk(file, chunkSize, j))
    && (pos > 0 ==> CutAt(file.bytes, pos, carry) && (open ==> NoNewline(carry)))
  }

  lemma NoneBadYet(file: File, chunkSize: nat, k: nat)
    requires file.Present? && (forall j: nat | j < k :: !BadChunk(file, chunkSize, j)) && !BadChunk(file, chunkSize, k)
    ensures forall j: nat | j < k + 1 :: !BadChunk(file, chunkSize, j)
  {
    forall j: nat | j < k + 1 ensures !BadChunk(file, chunkSize, j) {
      if j < k {
      } else {
        assert j == k;
      }
    }
  }

  lemma ReadBackStep(file: File, chunkSize: nat, k: nat, pos: nat, newPos: nat, carry: seq<byte>, next: seq<byte>,
                     open: bool)
    requires file.Present? && ReadBack(file, chunkSize, k, pos, carry, true) && 0 < pos
    requires newPos == (if pos < chunkSize then 0 else pos - chunkSize) && newPos !in file.bad
    requires CutAt(file.bytes, newPos, next) && (open ==> NoNewline(next))
    ensures ReadBack(file, chunkSize, k + 1, newPos, next, open)
  {
    assert newPos == Offset(|file.bytes|, chunkSize, k + 1);
    NoneBadYet(file, chunkSize, k);
  }

  /** A bad chunk met by the loop is one before which too little has been found. */
  lemma ReadBackFails(file: File, n: int, f: Filter, chunkSize: nat, k: nat, pos: nat, carry: seq<byte>,
                      result: seq<Line>)
    requires file.Present? && ReadBack(file, chunkSize, k, pos, carry, true) && 0 < pos <= |file.bytes|
    requires |result| < n && Reading(file.bytes, result, file.bytes[..pos] + carry, f)
    requires (if pos < chunkSize then 0 else pos - chunkSize) in file.bad
    ensures TailFails(file, n, f, chunkSize)
  {
    FoundCollected(file.bytes, pos, carry, result, f);
    assert BadChunk(file, chunkSize, k);
  }

  /** A loop that is done has met none. */
  lemma ReadBackDone(file: File, n: int, f: Filter, chunkSize: nat, k: nat, pos: nat, carry: seq<byte>, open: bool,
                     result: seq<Line>)
    requires file.Present? && ReadBack(file, chunkSize, k, pos, carry, open) && pos <= |file.bytes|
    requires pos > 0 ==> |result| >= n && Reading(file.bytes, result, file.bytes[..pos] + carry, f)
    ensures !TailFails(file, n, f, chunkSize)
  {
    if pos > 0 {
      FoundCollected(file.bytes, pos, carry, result, f);
    }
    TailDone(file, n, f, chunkSize, k);
  }

  /** One round of the outer loop: reads a chunk, takes its lines, and at the start of the file the carry too. */
  method TailChunk(file: File, n: int, f: Filter, chunkSize: nat, before: nat, carried: seq<byte>,
                   collected: seq<Line>, ghost k: nat)
    returns (ok: bool, result: seq<Line>, pos: nat, carry: seq<byte>)
    requires chunkSize > 0 && file.Present? && 0 < before <= |file.bytes| && |collected| < n
    requires Reading(file.bytes, collected, file.bytes[..before] + carried, f)
    requires ReadBack(file, chunkSize, k, before, carried, true)
    ensures !ok ==> TailFails(file, n, f, chunkSize) && file.bad != {}
    ensures ok ==>
              && pos < before && |result| <= n && (pos == 0 && |result| < n ==> carry == [])
              && Reading(file.bytes, result, file.bytes[..pos] + carry, f)
              && ReadBack(file, chunkSize, k + 1, pos, carry, |result| < n)
  {
    var bytes := file.bytes;
    var readSize := if before < chunkSize then before else chunkSize;
    result, carry, pos := collected, carried, before - readSize;
    Unchunk(bytes, pos, before, carried);
    if pos in file.bad {
      ReadBackFails(file, n, f, chunkSize, k, before, carried, collected);
      return false, result, pos, carry;
    }
    var merged := bytes[pos..before] + carried;
    var end;
    result, end := ScanChunk(bytes, bytes[..pos], merged, n, f, collected);
    CutAgain(bytes, before, pos, carried, end);
    ReadBackStep(file, chunkSize, k, before, pos, carried, merged[..end], |result| < n);
    carry := merged[..end];
    if |result| < n && pos == 0 && |carry| > 0 {
      CutCarry(bytes, result, bytes, carry, f);
      if Passes(f, carry) {
        result := result + [carry];
      }
      carry := [];
    }
    ok := true;
  }

  method TailLines(file: File, n: int, f: Filter, chunkSize: nat) returns (r: Result<seq<Line>>)
    requires chunkSize > 0
    ensures r.Ok? ==> r.value == Newest(Content(file), n, f)
    ensures r.Err? <==> TailFails(file, n, f, chunkSize)
    ensures r.Err? ==> n > 0 && (file.Unopenable? || (file.Present? && file.bad != {}))
    ensures r.Err? ==> r.error == if file.Unopenable? then OpenFailed else ReadFailed
  {
    if n <= 0 {
      return Ok([]);
    }
    if file.Unopenable? {
      return Err(OpenFailed);
    }
    if file.Missing? || |file.bytes| == 0 {
      KeptOneLine([], f);
      return Ok([]);
    }
    var bytes := file.bytes;
    var carry: seq<byte> := [];
    var result: seq<Line> := [];
    var pos := |bytes|;
    ghost var k: nat := 0;
    assert bytes[..pos] + carry == bytes;
    while pos > 0 && |result| < n
      invariant 0 <= pos <= |bytes| && |result| <= n
      invariant pos == 0 && |result| < n ==> carry == []
      invariant Reading(bytes, result, bytes[..pos] + carry, f)
      invariant ReadBack(file, chunkSize, k, pos, carry, |result| < n)
      decreases pos
    {
      var ok;
      ok, result, pos, carry := TailChunk(file, n, f, chunkSize, pos, carry, result, k);
      if !ok {
        return Err(ReadFailed);
      }
      k := k + 1;
    }
    ReadBackDone(file, n, f, chunkSize, k, pos, carry, |result| < n, result);
    assert pos == 0 && carry == [] ==> bytes[..pos] + carry == [];
    ReadEnough(bytes, result, bytes[..pos] + carry, f, n);
    return Ok(result);
  }

  // ----------------------------------------------------------------- forward

  /** A line callback; its answer may depend on every line it has been given, the current one last. */
  type Handler = seq<Line> -> bool

  /** The scanner's limit: a piece this long or longer ends the scan with an error. */
  const MAX_LINE: nat := 1024 * 1024

  function DropCr(line: Line): Line {
    if line != [] && line[|line| - 1] == CR then line[..|line| - 1] else line
  }

  /** The lines a forward scan offers to its handler, up to the first over-long piece. */
  function Scanned(ps: seq<Line>, f: Filter): seq<Line> {
    if ps == [] || |ps[0]| >= MAX_LINE then [] else KeepOne(DropCr(ps[0]), f) + Scanned(ps[1..], f)
  }

  predicate Overlong(ps: seq<Line>) {
    exists p <- ps :: |p| >= MAX_LINE
  }

  datatype Fed = Fed(seen: seq<Line>, stopped: bool)

  /** Hands lines to a handler that has already seen `seen`, until it answers false. */
  function Feed(lines: seq<Line>, h: Handler, seen: seq<Line>): Fed {
    if lines == [] then Fed(seen, false)
    else if h(seen + [lines[0]]) then Feed(lines[1..], h, seen + [lines[0]])
    else Fed(seen + [lines[0]], true)
  }

  /** A forward scan meets a read error. */
  predicate Broken(file: File) {
    file.Present? && file.fails.Some? && file.fails.value <= |file.bytes|
  }

  /** What a forward scan gets to read: all, or what comes before the error. */
  function Front(file: File): (s: seq<byte>)
    ensures !Broken(file) ==> s == Content(file)
  {
    if Broken(file) then file.bytes[..file.fails.value] else Content(file)
  }

  /** What `ScanFile` must return: its error and all lines seen by the handler so far. */
  function ScanResult(file: File, f: Filter, h: Handler, seen: seq<Line>): (Option<Error>, seq<Line>) {
    if file.Unopenable? then (Some(OpenFailed), seen) else PiecesResult(Pieces(Front(file)), Broken(file), f, h, seen)
  }

  /** A read error is reported after the lines before it, the last of them cut off, have been offered. */
  function PiecesResult(ps: seq<Line>, broken: bool, f: Filter, h: Handler, seen: seq<Line>)
    : (Option<Error>, seq<Line>)
  {
    var fed := Feed(Scanned(ps, f), h, seen);
    (if fed.stopped then None else if Overlong(ps) then Some(TooLong) else if broken then Some(ReadFailed) else None,
     fed.seen)
  }

  function FirstNewline(s: seq<byte>): (i: nat)
    ensures i <= |s| && NoNewline(s[..i])
    ensures i < |s| ==> s[i] == LF
  {
    if s == [] || s[0] == LF then 0
    else
      var i := FirstNewline(s[1..]);
      assert s[..i + 1] == [s[0]] + s[1..][..i];
      i + 1
  }

  lemma PieceAt(s: seq<byte>, i: nat)
    requires i <= |s| && NoNewline(s[..i]) && (i < |s| ==> s[i] == LF)
    ensures Pieces(s) == if i == |s| then [s] else [s[..i]] + Pieces(s[i + 1..])
  {
    if i == |s| {
      assert s[..i] == s;
      PiecesNoNewline(s);
    } else {
      assert s == s[..i] + [LF] + s[i + 1..];
      SplitFirst(s[..i], LF, s[i + 1..]);
    }
  }

  /** The scanner's next token is the first piece. */
  lemma FirstPiece(s: seq<byte>)
    ensures var i := FirstNewline(s); Pieces(s) == if i == |s| then [s] else [s[..i]] + Pieces(s[i + 1..])
  {
    PieceAt(s, FirstNewline(s));
  }

  lemma OverlongHead(p: Line, ps: seq<Line>)
    ensures Overlong([p] + ps) <==> |p| >= MAX_LINE || Overlong(ps)
  {
    if |p| >= MAX_LINE {
      assert p in [p] + ps;
    }
    if Overlong(ps) {
      var q :| q in ps && |q| >= MAX_LINE;
      assert q in [p] + ps;
    }
  }

  /** One step of the scan: what the first piece does to the result. */
  lemma PiecesResultStep(p: Line, ps: seq<Line>, broken: bool, f: Filter, h: Handler, seen: seq<Line>)
    ensures PiecesResult([], broken, f, h, seen) == (if broken then Some(ReadFailed) else None, seen)
    ensures PiecesResult([p] + ps, broken, f, h, seen) ==
            if |p| >= MAX_LINE then (Some(TooLong), seen)
            else if DropCr(p) == [] || !Passes(f, DropCr(p)) then PiecesResult(ps, broken, f, h, seen)
            else if h(seen + [DropCr(p)]) then PiecesResult(ps, broken, f, h, seen + [DropCr(p)])
            else (None, seen + [DropCr(p)])
  {
    assert ([p] + ps)[1..] == ps;
    OverlongHead(p, ps);
    if |p| < MAX_LINE {
      var kept := KeepOne(DropCr(p), f);
      assert Scanned([p] + ps, f) == kept + Scanned(ps, f);
      assert (kept + Scanned(ps, f))[|kept|..] == Scanned(ps, f);
    }
  }

  method ScanFile(file: File, f: Filter, h: Handler, before: seq<Line>) returns (err: Option<Error>, seen: seq<Line>)
    ensures (err, seen) == ScanResult(file, f, h, before)
  {
    seen := before;
    if file.Unopenable? {
      return Some(OpenFailed), seen;
    }
    var rest := Front(file);
    while rest != []
      invariant ScanResult(file, f, h, before) == PiecesResult(Pieces(rest), Broken(file), f, h, seen)
      decreases |rest|
    {
      var i := FirstNewline(rest);
      var token := rest[..i];
      ghost var left := if i == |rest| then [] else Pieces(rest[i + 1..]);
      FirstPiece(rest);
      PiecesResultStep(token, left, Broken(file), f, h, seen);
      assert i == |rest| ==> token == rest;
      if i >= MAX_LINE {
        return Some(TooLong), seen;
      }
      rest := if i == |rest| then [] else rest[i + 1..];
      var line := DropCr(token);
      if line != [] && Passes(f, line) {
        seen := seen + [line];
        if !h(seen) {
          return None, seen;
        }
      }
      EmptyFile(Broken(file), f, h, seen);
    }
    EmptyFile(Broken(file), f, h, seen);
    return if Broken(file) then Some(ReadFailed) else None, seen;
  }

  lemma EmptyFile(broken: bool, f: Filter, h: Handler, seen: seq<Line>)
    ensures PiecesResult(Pieces([]), broken, f, h, seen) == PiecesResult([], broken, f, h, seen)
            == (if broken then Some(ReadFailed) else None, seen)
  {
    PiecesResultStep([], [], broken, f, h, seen);
    assert [[]] + [] == Pieces([]);
  }

  // ------------------------------------------- the two directions together

  /** A piece both readers treat alike: within the scanner's limit and without a trailing carriage return. */
  predicate Clean(p: Line) {
    |p| < MAX_LINE && DropCr(p) == p
  }

  /** On clean pieces the forward scan offers exactly the kept lines, whatever the filter. */
  lemma {:induction false} ScannedClean(ps: seq<Line>, f: Filter)
    requires forall p <- ps :: Clean(p)
    ensures Scanned(ps, f) == Keep(ps, f)
  {
    if ps != [] {
      assert Clean(ps[0]);
      ScannedClean(ps[1..], f);
    }
  }

  lemma {:induction false} ScannedShorter(ps: seq<Line>)
    ensures |Flatten(Scanned(ps, None))| <= |Flatten(Keep(ps, None))|
    ensures |Flatten(Scanned(ps, None))| == |Flatten(Keep(ps, None))| ==> forall p <- ps :: Clean(p)
  {
    if ps != [] {
      var p, rest := ps[0], ps[1..];
      ScannedShorter(rest);
      FlattenAppend(KeepOne(p, None), Keep(rest, None));
      FlattenAppend(KeepOne(DropCr(p), None), Scanned(rest, None));
      assert p != [] ==> Flatten([p]) == p + Flatten([]);
      assert DropCr(p) != [] ==> Flatten([DropCr(p)]) == DropCr(p) + Flatten([]);
    }
  }

  /** Without a filter, the whole-file tail is the reversed scan exactly when every piece is clean. */
  lemma DirectionsAgree(s: seq<byte>, n: int)
    requires n >= |Kept(s, None)|
    ensures Reverse(Newest(s, n, None)) == Scanned(Pieces(s), None) <==> forall p <- Pieces(s) :: Clean(p)
  {
    ReverseTwice(Kept(s, None));
    if forall p <- Pieces(s) :: Clean(p) {
      ScannedClean(Pieces(s), None);
    }
    ScannedShorter(Pieces(s));
  }

  /** A file with a carriage return before its newline reads differently in the two directions. */
  lemma CarriageReturnDiffers()
    ensures Scanned(Pieces([65, 13, 10]), None) == [[65]]
    ensures Newest([65, 13, 10], 1, None) == [[65, 13]]
  {
    var line: Line := [65, CR];
    PiecesOfFramed([line]);
    FlatMapOne(Frame, line);
    assert Framed([line]) == [65, CR, LF];
    assert DropCr(line) == [65];
    assert Scanned([line, []], None) == KeepOne([65], None) + Scanned([[]], None);
    assert Scanned([[]], None) == KeepOne([], None) + Scanned([], None);
    assert Keep([line, []], None) == KeepOne(line, None) + Keep([[]], None);
    assert Keep([[]], None) == KeepOne([], None) + Keep([], None);
  }

  /** The scanner's limit in bytes: a line of 1048576 or more is not offered but reported, and a shorter one is. */
  lemma LineLimit(line: Line)
    requires NoNewline(line) && line != []
    ensures Overlong(Pieces(line)) <==> |line| >= 1_048_576
    ensures Scanned(Pieces(line), None) == [] <==> |line| >= 1_048_576 || line == [13]
  {
    PiecesNoNewline(line);
    assert Scanned([], None) == [];
  }

  /** What `json.Marshal` gives: one non-empty line without raw control characters, within the scanner's limit. */
  predicate Marshalled(record: Line) {
    record != [] && NoNewline(record) && Clean(record)
  }

  lemma {:induction false} KeepAll(records: seq<Line>)
    requires [] !in records
    ensures Keep(records + [[]], None) == records
  {
    if records == [] {
      assert Keep([[]], None) == KeepOne([], None) + Keep([], None);
    } else {
      KeepAll(records[1..]);
      assert (records + [[]])[1..] == records[1..] + [[]];
      assert records[0] in records;
    }
  }

  /** Reading back written records: forward gives them all in order, backward the last `n` of the same list reversed. */
  lemma RoundTrip(records: seq<Line>, n: int)
    requires forall r <- records :: Marshalled(r)
    ensures Scanned(Pieces(Framed(records)), None) == records
    ensures Newest(Framed(records), n, None) == Take(n, Reverse(records))
    ensures !Overlong(Pieces(Framed(records)))
  {
    PiecesOfFramed(records);
    forall p | p in records + [[]] ensures Clean(p) {
      assert p in records || p == [];
    }
    ScannedClean(records + [[]], None);
    KeepAll(records);
  }

  // ---------------------------------------------------------------- decoding

  /** `json.Unmarshal` into the caller's type; `None` is a decoding error. */
  type Decoder<!T> = Line -> Option<T>

  function DecodeOne<T>(dec: Decoder<T>): Line -> seq<T> {
    (line: Line) => match dec(line) case Some(v) => [v] case None => []
  }

  /** The records of the lines that decode, in order. */
  function Decoded<T>(dec: Decoder<T>, lines: seq<Line>): seq<T> {
    FlatMap(DecodeOne(dec), lines)
  }

  lemma {:induction false} DecodedLength<T>(dec: Decoder<T>, lines: seq<Line>)
    ensures |Decoded(dec, lines)| <= |lines|
    ensures |Decoded(dec, lines)| == |lines| <==> forall l <- lines :: dec(l).Some?
    ensures Decoded(dec, lines) == [] <==> forall l <- lines :: dec(l).None?
  {
    if lines != [] {
      DecodedLength(dec, lines[1..]);
      assert lines == [lines[0]] + lines[1..];
    }
  }

  /** The loop both DecodeSince and DecodeTail run over their lines: undecodable ones are skipped. */
  method DecodeAll<T>(dec: Decoder<T>, lines: seq<Line>) returns (out: seq<T>)
    ensures out == Decoded(dec, lines)
  {
    out := [];
    for i := 0 to |lines|
      invariant out == Decoded(dec, lines[..i])
    {
      FlatMapAppend(DecodeOne(dec), lines[..i], [lines[i]]);
      FlatMapOne(DecodeOne(dec), lines[i]);
      assert lines[..i + 1] == lines[..i] + [lines[i]];
      match dec(lines[i])
      case Some(v) => out := out + [v];
      case None =>
    }
    assert lines[..|lines|] == lines;
  }

  method DecodeTail<T>(file: File, n: int, f: Filter, dec: Decoder<T>) returns (r: Result<seq<T>>)
    ensures r.Ok? ==> r.value == Decoded(dec, Newest(Content(file), n, f))
    ensures r.Err? <==> TailFails(file, n, f, CHUNK_SIZE)
    ensures r.Err? ==> n > 0 && (file.Unopenable? || (file.Present? && file.bad != {}))
    ensures r.Err? ==> r.error == if file.Unopenable? then OpenFailed else ReadFailed
  {
    var lines := TailLines(file, n, f, CHUNK_SIZE);
    if lines.Err? {
      return Err(lines.error);
    }
    var out := DecodeAll(dec, lines.value);
    return Ok(out);
  }

  /** The newest `want` lines all decode, or no older line does. */
  predicate Serves<T>(dec: Decoder<T>, lines: seq<Line>, want: nat) {
    var newest := Take(want, lines);
    (forall l <- newest :: dec(l).Some?) || (forall l <- lines[|newest|..] :: dec(l).None?)
  }

  /**
   * The quota counts lines, not records: what comes back is the newest `n` records exactly when
   * the newest `n` lines all decode, or no older line does.
   */
  lemma QuotaOfLines<T>(dec: Decoder<T>, newest: seq<Line>, n: nat)
    ensures Decoded(dec, Take(n, newest)) == Take(n, Decoded(dec, newest))
            <==> Serves(dec, newest, n)
  {
    var head, tail := Take(n, newest), newest[|Take(n, newest)|..];
    assert newest == head + tail;
    FlatMapAppend(DecodeOne(dec), head, tail);
    DecodedLength(dec, head);
    DecodedLength(dec, tail);
  }
}
