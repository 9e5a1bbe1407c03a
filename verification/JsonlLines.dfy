/** What a JSONL file means: the bytes between newlines, and which of those lines a reader keeps. */
module JsonlLines {
  import opened Machine
  import opened Sequences
  import opened Text

  const LF: byte := 10
  const CR: byte := 13

  type Line = seq<byte>

  /** A line filter; `None` is Go's nil filter, which keeps everything. */
  type Filter = Option<Line -> bool>

  predicate Passes(f: Filter, line: Line) {
    f.None? || f.value(line)
  }

  predicate NoNewline(s: seq<byte>) {
    LF !in s
  }

  /** The pieces of `s` between newlines; the last one is what follows the last newline, possibly empty. */
  function Pieces(s: seq<byte>): (r: seq<Line>)
    ensures r != []
  {
    Split(s, LF)
  }

  function KeepOne(line: Line, f: Filter): seq<Line> {
    if line != [] && Passes(f, line) then [line] else []
  }

  function Keeper(f: Filter): Line -> seq<Line> {
    line => KeepOne(line, f)
  }

  /** The lines of `ps` a reader keeps: the non-empty ones that pass the filter. */
  function Keep(ps: seq<Line>, f: Filter): seq<Line> {
    FlatMap(Keeper(f), ps)
  }

  /** All kept lines of a file, oldest first. */
  function Kept(s: seq<byte>, f: Filter): seq<Line> {
    Keep(Pieces(s), f)
  }

  /** `Pieces` really is the splitting of `s` at its newlines: newline-free pieces that join back to `s`. */
  lemma PiecesSplit(s: seq<byte>)
    ensures Join(Pieces(s), LF) == s
    ensures forall p <- Pieces(s) :: NoNewline(p)
  {
    SplitJoin(s, LF);
    SplitParts(s, LF);
  }

  lemma PiecesNoNewline(s: seq<byte>)
    requires NoNewline(s)
    ensures Pieces(s) == [s]
  {
    SplitWhole(s, LF);
  }

  lemma PiecesAppend(a: seq<byte>, b: seq<byte>)
    ensures Pieces(a + [LF] + b) == Pieces(a) + Pieces(b)
  {
    SplitAppend(a, LF, b);
  }

  /** The splitting is the only one: any newline-free pieces that join to `s` are its pieces. */
  lemma PiecesUnique(ps: seq<Line>)
    requires ps != [] && forall p <- ps :: NoNewline(p)
    ensures Pieces(Join(ps, LF)) == ps
  {
    SplitUnique(ps, LF);
  }

  lemma KeptAppend(a: seq<byte>, b: seq<byte>, f: Filter)
    ensures Kept(a + [LF] + b, f) == Kept(a, f) + Kept(b, f)
  {
    PiecesAppend(a, b);
    FlatMapAppend(Keeper(f), Pieces(a), Pieces(b));
  }

  lemma KeptOneLine(s: seq<byte>, f: Filter)
    requires NoNewline(s)
    ensures Kept(s, f) == KeepOne(s, f)
  {
    PiecesNoNewline(s);
    FlatMapOne(Keeper(f), s);
  }

  function Frame(record: Line): seq<byte> {
    record + [LF]
  }

  /** The bytes a writer produces for a list of records: each followed by one newline. */
  function Framed(records: seq<Line>): seq<byte> {
    FlatMap(Frame, records)
  }

  /** Reading back what was framed: one piece per record and a final empty piece. */
  lemma {:induction false} PiecesOfFramed(records: seq<Line>)
    requires forall r <- records :: NoNewline(r)
    ensures Pieces(Framed(records)) == records + [[]]
  {
    if records != [] {
      PiecesOfFramed(records[1..]);
      PiecesAppend(records[0], Framed(records[1..]));
      PiecesNoNewline(records[0]);
    }
  }
}
