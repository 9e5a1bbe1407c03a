/** Line filters of jsonl/filter.go. */
module JsonlFilter {
  import opened Sequences
  import opened JsonlLines

  /** What gjson finds at a path: a number, a string with its RFC 3339 reading, or something else. */
  datatype Field = Number(n: int) | Text(time: Option<int>) | Other

  /** The timestamp field a caller names, with the lookup that path denotes. */
  datatype TsField = TsField(path: string, get: Line -> Field)

  function ParseTimestamp(line: Line, ts: TsField): Option<int> {
    if ts.path == "" then None
    else match ts.get(line)
      case Number(n) => Some(n)
      case Text(time) => time
      case Other => None
  }

  function TsGte(ts: TsField, cutoff: int): Filter {
    if ts.path == "" then None
    else Some((line: Line) =>
           var t := ParseTimestamp(line, ts);
           t.Some? && t.value >= cutoff)
  }

  function NonNil(fs: seq<Filter>): (r: seq<Line -> bool>) {
    if fs == [] then []
    else (if fs[0].Some? then [fs[0].value] else []) + NonNil(fs[1..])
  }

  predicate AllPass(fs: seq<Line -> bool>, line: Line) {
    fs == [] || (fs[0](line) && AllPass(fs[1..], line))
  }

  /** Nil for no filter, the filter itself for one, else their conjunction. */
  function Combine(fs: seq<Line -> bool>): Filter {
    if |fs| == 0 then None
    else if |fs| == 1 then Some(fs[0])
    else Some((line: Line) => AllPass(fs, line))
  }

  function And(filters: seq<Filter>): Filter {
    Combine(NonNil(filters))
  }

  /** The loop of `And`, which collects the filters that are not nil. */
  method CombineFilters(filters: seq<Filter>) returns (f: Filter)
    ensures f == And(filters)
  {
    var fs: seq<Line -> bool> := [];
    var i := 0;
    while i < |filters|
      invariant 0 <= i <= |filters|
      invariant fs + NonNil(filters[i..]) == NonNil(filters)
    {
      assert filters[i..][1..] == filters[i + 1..];
      if filters[i].Some? {
        Assoc(fs, [filters[i].value], NonNil(filters[i + 1..]));
        fs := fs + [filters[i].value];
      }
      i := i + 1;
    }
    assert fs + [] == fs;
    f := Combine(fs);
  }

  /** The closure `And` returns: its loop stops at the first filter that rejects the line. */
  method RunFilters(fs: seq<Line -> bool>, line: Line) returns (keep: bool)
    ensures keep <==> forall f <- fs :: f(line)
    ensures keep == AllPass(fs, line)
  {
    for i := 0 to |fs|
      invariant forall j | 0 <= j < i :: fs[j](line)
      invariant AllPass(fs, line) == AllPass(fs[i..], line)
    {
      assert fs[i..][1..] == fs[i + 1..];
      if !fs[i](line) {
        assert fs[i] in fs;
        return false;
      }
    }
    return true;
  }

  lemma {:induction false} NonNilPass(filters: seq<Filter>, line: Line)
    ensures AllPass(NonNil(filters), line) <==> forall f <- filters :: Passes(f, line)
  {
    if filters != [] {
      var head, tail := filters[0], filters[1..];
      NonNilPass(tail, line);
      assert head in filters && (forall f <- tail :: f in filters) && forall f <- filters :: f == head || f in tail;
      if head.Some? {
        assert NonNil(filters) == [head.value] + NonNil(tail);
        assert NonNil(filters)[1..] == NonNil(tail);
      } else {
        assert NonNil(filters) == NonNil(tail);
      }
    }
  }

  /** The combination keeps a line exactly when every filter does, and is nil only when all are. */
  lemma AndPasses(filters: seq<Filter>, line: Line)
    ensures Passes(And(filters), line) <==> forall f <- filters :: Passes(f, line)
    ensures And(filters).None? <==> forall f <- filters :: f.None?
  {
    NonNilPass(filters, line);
    var fs := NonNil(filters);
    if |fs| == 1 {
      assert fs[1..] == [];
    }
    NonNilEmpty(filters);
  }

  lemma {:induction false} NonNilEmpty(filters: seq<Filter>)
    ensures NonNil(filters) == [] <==> forall f <- filters :: f.None?
  {
    if filters != [] {
      NonNilEmpty(filters[1..]);
      var head, tail := filters[0], filters[1..];
      assert head in filters && (forall f <- tail :: f in filters) && forall f <- filters :: f == head || f in tail;
    }
  }
}
