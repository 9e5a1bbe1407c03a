/** The newest records of the last days: DecodeTailDays. */
module JsonlTail {
  import opened Sequences
  import opened Calendar
  import opened JsonlLines
  import opened JsonlReader
  import opened JsonlNaming
  import opened JsonlScan

  /** The file of the day `back` days before `today`. */
  function DayFile(dir: Folder, n: Naming, today: int): int -> File {
    (back: int) => Open(dir, n.FileName(DayName(today - back)))
  }

  lemma DayFileAt(dir: Folder, n: Naming, day: int, back: int, name: string)
    requires DayName(day - back) == name
    ensures DayFile(dir, n, day)(back) == Open(dir, n.FileName(name))
  {
  }

  /** It is the file named after the date that many days before today's. */
  lemma DayFileIs(dir: Folder, n: Naming, today: Date, back: int)
    requires ValidDate(today)
    ensures DayFile(dir, n, DayNumber(today))(back) == Open(dir, n.FileName(Format(AddDays(today, -back))))
  {
    NameBack(today, back);
    DayFileAt(dir, n, DayNumber(today), back, Format(AddDays(today, -back)));
  }

  /** The kept lines of a file, newest first. */
  function Tail(file: File, f: Filter): seq<Line> {
    Reverse(Kept(Content(file), f))
  }

  /** Day `back`, read with a quota: the records of its newest `want` kept lines. */
  function DayFetch<T>(files: int -> File, f: Filter, dec: Decoder<T>): (int, nat) -> seq<T> {
    (back: int, want: nat) => Decoded(dec, Take(want, Tail(files(back), f)))
  }

  /** All records of day `back`, newest first. */
  function DayRecords<T>(files: int -> File, f: Filter, dec: Decoder<T>): int -> seq<T> {
    (back: int) => Decoded(dec, Tail(files(back), f))
  }

  /** The newest-first records of the newest `days` days. */
  function NewestFirst<T>(records: int -> seq<T>, days: nat): seq<T> {
    if days == 0 then [] else NewestFirst(records, days - 1) + records(days - 1)
  }

  /** Reading day by day, each day with what is left of the quota. */
  function Collect<T>(fetch: (int, nat) -> seq<T>, limit: nat, days: nat): seq<T> {
    if days == 0 then []
    else
      var out := Collect(fetch, limit, days - 1);
      if |out| >= limit then out else out + fetch(days - 1, limit - |out|)
  }

  ghost predicate Bounded<T>(fetch: (int, nat) -> seq<T>) {
    forall back: int, want: nat :: |fetch(back, want)| <= want
  }

  lemma {:induction false} CollectBound<T>(fetch: (int, nat) -> seq<T>, limit: nat, days: nat)
    requires Bounded(fetch)
    ensures |Collect(fetch, limit, days)| <= limit
  {
    if days > 0 {
      CollectBound(fetch, limit, days - 1);
    }
  }

  /** What day `k` gives, for what the later days leave of the limit, is its newest records. */
  ghost predicate MeetsQuota<T>(fetch: (int, nat) -> seq<T>, records: int -> seq<T>, limit: nat, k: nat) {
    var left := limit - |NewestFirst(records, k)|;
    left > 0 ==> fetch(k, left) == Take(left, records(k))
  }

  /**
   * When every day read meets its quota, the result is the first `limit` records of the whole
   * newest-first log.
   */
  lemma {:induction false} CollectNewest<T>(fetch: (int, nat) -> seq<T>, records: int -> seq<T>, limit: nat, days: nat)
    requires forall k: nat | k < days :: MeetsQuota(fetch, records, limit, k)
    ensures Collect(fetch, limit, days) == Take(limit, NewestFirst(records, days))
  {
    if days > 0 {
      CollectNewest(fetch, records, limit, days - 1);
      assert MeetsQuota(fetch, records, limit, days - 1);
      TakeAppend(limit, NewestFirst(records, days - 1), records(days - 1));
    }
  }

  lemma {:induction false} CollectFull<T>(fetch: (int, nat) -> seq<T>, limit: nat, back: nat, days: nat)
    requires back <= days && |Collect(fetch, limit, back)| >= limit
    ensures Collect(fetch, limit, days) == Collect(fetch, limit, back)
    decreases days
  {
    if back < days {
      CollectFull(fetch, limit, back, days - 1);
    }
  }

  /**
   * A day meets a quota exactly when the lines taken from it all decode, or none of its older lines
   * does: an undecodable line uses up quota and hides older records of its day.
   */
  lemma DayMeetsQuota<T>(files: int -> File, f: Filter, dec: Decoder<T>, back: int, want: nat)
    ensures DayFetch(files, f, dec)(back, want) == Take(want, DayRecords(files, f, dec)(back)) <==>
              Serves(dec, Tail(files(back), f), want)
    ensures |DayFetch(files, f, dec)(back, want)| <= want
  {
    QuotaOfLines(dec, Tail(files(back), f), want);
    DecodedLength(dec, Take(want, Tail(files(back), f)));
  }

  ghost predicate FetchIs<T>(fetch: (int, nat) -> seq<T>, files: int -> File, f: Filter, dec: Decoder<T>, back: int,
                             want: nat)
  {
    fetch(back, want) == Decoded(dec, Take(want, Tail(files(back), f)))
  }

  /** The file cannot be opened, or cannot be read somewhere. */
  predicate Faulty(file: File) {
    file.Unopenable? || (file.Present? && file.bad != {})
  }

  /** Whether reading day `back` with a quota fails. */
  ghost function DayFault(files: int -> File, f: Filter): (int, nat) -> bool {
    (back: int, want: nat) => TailFails(files(back), want, f, CHUNK_SIZE)
  }

  ghost predicate FaultIs(fault: (int, nat) -> bool, files: int -> File, f: Filter, back: int, want: nat) {
    fault(back, want) <==> TailFails(files(back), want, f, CHUNK_SIZE)
  }

  /** Day `k` is reached before the limit is met, and reading what is asked of it fails. */
  ghost predicate DayFails<T>(fault: (int, nat) -> bool, fetch: (int, nat) -> seq<T>, limit: nat, k: nat) {
    var left := limit - |Collect(fetch, limit, k)|;
    left > 0 && fault(k, left)
  }

  method ReadDay<T>(files: int -> File, back: int, want: nat, f: Filter, dec: Decoder<T>,
                    ghost fetch: (int, nat) -> seq<T>, ghost fault: (int, nat) -> bool)
    returns (r: Result<seq<T>>)
    requires forall day, quota :: FetchIs(fetch, files, f, dec, day, quota)
    requires forall day, quota :: FaultIs(fault, files, f, day, quota)
    ensures r.Ok? ==> r.value == fetch(back, want)
    ensures r.Err? <==> fault(back, want)
  {
    assert FetchIs(fetch, files, f, dec, back, want) && FaultIs(fault, files, f, back, want);
    r := DecodeTail(files(back), want, f, dec);
  }

  /** Once the limit is met no later day is read, so none of them can fail or add anything. */
  lemma NoneLater<T>(fault: (int, nat) -> bool, fetch: (int, nat) -> seq<T>, limit: nat, back: nat, days: nat)
    requires back <= days && (back < days ==> |Collect(fetch, limit, back)| >= limit)
    ensures Collect(fetch, limit, days) == Collect(fetch, limit, back)
    ensures forall k: nat | back <= k < days :: !DayFails(fault, fetch, limit, k)
  {
    forall k: nat | back <= k < days ensures !DayFails(fault, fetch, limit, k) {
      CollectFull(fetch, limit, back, k);
    }
    if back < days {
      CollectFull(fetch, limit, back, days);
    }
  }

  method TailFiles<T>(files: int -> File, days: nat, limit: nat, f: Filter, dec: Decoder<T>,
                      ghost fetch: (int, nat) -> seq<T>, ghost fault: (int, nat) -> bool)
    returns (r: Result<seq<T>>)
    requires forall back, want :: FetchIs(fetch, files, f, dec, back, want)
    requires forall back, want :: FaultIs(fault, files, f, back, want)
    ensures r.Ok? ==> r.value == Collect(fetch, limit, days)
    ensures r.Err? <==> exists k: nat | k < days :: DayFails(fault, fetch, limit, k)
  {
    var out: seq<T> := [];
    var back := 0;
    while back < days && |out| < limit
      invariant 0 <= back <= days
      invariant out == Collect(fetch, limit, back)
      invariant forall k: nat | k < back :: !DayFails(fault, fetch, limit, k)
    {
      var left: nat := limit - |out|;
      var got := ReadDay(files, back, left, f, dec, fetch, fault);
      if got.Err? {
        assert DayFails(fault, fetch, limit, back);
        return Err(got.error);
      }
      out := out + got.value;
      back := back + 1;
    }
    NoneLater(fault, fetch, limit, back, days);
    return Ok(out);
  }

  method DecodeTailDays<T>(dir: Folder, n: Naming, now: int, offset: int, days: int, limit: int, f: Filter,
                           dec: Decoder<T>)
    returns (r: Result<seq<T>>)
    ensures days <= 0 || limit <= 0 ==> r == Ok([])
    ensures days > 0 && limit > 0 && r.Ok? ==>
              r.value == Collect(DayFetch(DayFile(dir, n, DayOf(now, offset)), f, dec), limit, days)
    ensures r.Err? <==>
              && days > 0 && limit > 0
              && var files := DayFile(dir, n, DayOf(now, offset));
                 exists k: nat | k < days :: DayFails(DayFault(files, f), DayFetch(files, f, dec), limit, k)
    ensures r.Err? ==>
              var files := DayFile(dir, n, DayOf(now, offset));
              exists k: nat | k < days :: Faulty(files(k))
  {
    if days <= 0 || limit <= 0 {
      return Ok([]);
    }
    var files := DayFile(dir, n, DayOf(now, offset));
    r := TailFiles(files, days, limit, f, dec, DayFetch(files, f, dec), DayFault(files, f));
    if r.Err? {
      ghost var k: nat :| k < days && DayFails(DayFault(files, f), DayFetch(files, f, dec), limit, k);
      assert Faulty(files(k));
    }
  }

  // ------------------------------------------------------------ and only then

  /** What a day gives for a quota is the beginning of its records, and no more than asked. */
  ghost predicate Prefixes<T>(fetch: (int, nat) -> seq<T>, records: int -> seq<T>) {
    forall back: int, want: nat :: fetch(back, want) <= records(back) && |fetch(back, want)| <= want
  }

  /** No record of a day occurs on another. */
  ghost predicate Apart<T>(records: int -> seq<T>, days: nat) {
    forall i, j | 0 <= i < j < days :: forall x <- records(i) :: x !in records(j)
  }

  ghost predicate FromLater<T>(records: int -> seq<T>, k: nat, days: nat, x: T) {
    exists j | k < j < days :: x in records(j)
  }

  /** What the days after `k` add is their own. */
  lemma {:induction false} CollectAdds<T>(fetch: (int, nat) -> seq<T>, records: int -> seq<T>, limit: nat, k: nat,
                                          days: nat)
    requires k < days && Prefixes(fetch, records)
    ensures Collect(fetch, limit, k + 1) <= Collect(fetch, limit, days)
    ensures forall p | |Collect(fetch, limit, k + 1)| <= p < |Collect(fetch, limit, days)| ::
              FromLater(records, k, days, Collect(fetch, limit, days)[p])
    decreases days
  {
    if k + 1 < days {
      CollectAdds(fetch, records, limit, k, days - 1);
      var before, out := Collect(fetch, limit, days - 1), Collect(fetch, limit, days);
      forall p | |Collect(fetch, limit, k + 1)| <= p < |out|
        ensures FromLater(records, k, days, out[p])
      {
        if p < |before| {
          assert out[p] == before[p] && FromLater(records, k, days - 1, before[p]);
        } else {
          var got := fetch(days - 1, limit - |before|);
          assert out[p] == got[p - |before|] && got <= records(days - 1);
          assert out[p] in records(days - 1);
        }
      }
    }
  }

  lemma {:induction false} NewestFirstGrows<T>(records: int -> seq<T>, k: nat, days: nat)
    requires k < days
    ensures NewestFirst(records, k) + records(k) <= NewestFirst(records, days)
    decreases days
  {
    if k + 1 < days {
      NewestFirstGrows(records, k, days - 1);
    }
  }

  /** The first day that misses its quota leaves a gap that no later day can fill. */
  lemma MissedQuotaShows<T>(fetch: (int, nat) -> seq<T>, records: int -> seq<T>, limit: nat, days: nat, k: nat)
    requires Prefixes(fetch, records) && Apart(records, days)
    requires k < days && !MeetsQuota(fetch, records, limit, k)
    requires forall i: nat | i < k :: MeetsQuota(fetch, records, limit, i)
    ensures Collect(fetch, limit, days) != Take(limit, NewestFirst(records, days))
  {
    CollectNewest(fetch, records, limit, k);
    var before := NewestFirst(records, k);
    var left := limit - |before|;
    var got := fetch(k, left);
    assert Collect(fetch, limit, k) == before && got <= records(k) && |got| <= left;
    assert |got| < left && |got| < |records(k)|;
    var p, out, all := |before| + |got|, Collect(fetch, limit, days), NewestFirst(records, days);
    CollectAdds(fetch, records, limit, k, days);
    NewestFirstGrows(records, k, days);
    assert (before + records(k))[p] == records(k)[|got|] == all[p];
    assert records(k)[|got|] in records(k);
    if |out| > p {
      assert FromLater(records, k, days, out[p]);
      var j :| k < j < days && out[p] in records(j);
      assert all[p] !in records(j);
    }
  }

  lemma DayPrefix<T>(files: int -> File, f: Filter, dec: Decoder<T>, back: int, want: nat)
    ensures DayFetch(files, f, dec)(back, want) <= DayRecords(files, f, dec)(back)
  {
    var lines := Tail(files(back), f);
    var head := Take(want, lines);
    assert lines == head + lines[|head|..];
    FlatMapAppend(DecodeOne(dec), head, lines[|head|..]);
  }

  lemma NewestExactly<T>(fetch: (int, nat) -> seq<T>, records: int -> seq<T>, limit: nat, days: nat)
    requires Prefixes(fetch, records) && Apart(records, days)
    ensures Collect(fetch, limit, days) == Take(limit, NewestFirst(records, days)) <==>
            forall k: nat | k < days :: MeetsQuota(fetch, records, limit, k)
  {
    if forall k: nat | k < days :: MeetsQuota(fetch, records, limit, k) {
      CollectNewest(fetch, records, limit, days);
    } else {
      var k := FirstMiss(fetch, records, limit, days);
      MissedQuotaShows(fetch, records, limit, days, k);
    }
  }

  lemma FirstMiss<T>(fetch: (int, nat) -> seq<T>, records: int -> seq<T>, limit: nat, days: nat) returns (k: nat)
    requires exists i: nat | i < days :: !MeetsQuota(fetch, records, limit, i)
    ensures k < days && !MeetsQuota(fetch, records, limit, k)
    ensures forall i: nat | i < k :: MeetsQuota(fetch, records, limit, i)
  {
    k := 0;
    while MeetsQuota(fetch, records, limit, k)
      invariant k < days
      invariant forall i: nat | i < k :: MeetsQuota(fetch, records, limit, i)
      decreases days - k
    {
      k := k + 1;
    }
  }

  /** What the days later than `k` leave of the limit. */
  function Left<T>(files: int -> File, f: Filter, dec: Decoder<T>, limit: nat, k: nat): int {
    limit - |NewestFirst(DayRecords(files, f, dec), k)|
  }

  /** Day `k` is not needed any more, or the lines taken from it all decode, or no older line of it does. */
  predicate DayServes<T>(files: int -> File, f: Filter, dec: Decoder<T>, limit: nat, k: nat) {
    var left := Left(files, f, dec, limit, k);
    left > 0 ==> Serves(dec, Tail(files(k), f), left)
  }

  lemma DayServesQuota<T>(files: int -> File, f: Filter, dec: Decoder<T>, limit: nat, k: nat)
    ensures MeetsQuota(DayFetch(files, f, dec), DayRecords(files, f, dec), limit, k) <==>
            DayServes(files, f, dec, limit, k)
  {
    var left := Left(files, f, dec, limit, k);
    if left > 0 {
      DayMeetsQuota(files, f, dec, k, left);
    }
  }

  lemma DayPrefixes<T>(files: int -> File, f: Filter, dec: Decoder<T>)
    ensures Prefixes(DayFetch(files, f, dec), DayRecords(files, f, dec))
  {
    forall back: int, want: nat
      ensures DayFetch(files, f, dec)(back, want) <= DayRecords(files, f, dec)(back)
      ensures |DayFetch(files, f, dec)(back, want)| <= want
    {
      DayMeetsQuota(files, f, dec, back, want);
      DayPrefix(files, f, dec, back, want);
    }
  }

  /**
   * When no record occurs on two days, `DecodeTailDays` gives the newest `limit` records of the last
   * `days` day files if and only if every day serves its part.
   */
  lemma DecodeTailDaysExact<T>(files: int -> File, f: Filter, dec: Decoder<T>, limit: nat, days: nat)
    requires Apart(DayRecords(files, f, dec), days)
    ensures Collect(DayFetch(files, f, dec), limit, days) ==
            Take(limit, NewestFirst(DayRecords(files, f, dec), days)) <==>
            forall k: nat | k < days :: DayServes(files, f, dec, limit, k)
  {
    DayPrefixes(files, f, dec);
    NewestExactly(DayFetch(files, f, dec), DayRecords(files, f, dec), limit, days);
    forall k: nat | k < days
      ensures MeetsQuota(DayFetch(files, f, dec), DayRecords(files, f, dec), limit, k) <==>
              DayServes(files, f, dec, limit, k)
    {
      DayServesQuota(files, f, dec, limit, k);
    }
  }

  lemma AllDecodeServes<T>(dec: Decoder<T>, lines: seq<Line>, want: nat)
    requires forall l <- lines :: dec(l).Some?
    ensures Serves(dec, lines, want)
  {
    forall l | l in Take(want, lines) ensures dec(l).Some? {
      assert l in lines;
    }
  }

  /**
   * What `DecodeTailDays` promises: never more than `limit` records, and when every filter-passing
   * line decodes, exactly the newest `limit` records of the last `days` day files.
   */
  lemma DecodeTailDaysNewest<T>(files: int -> File, f: Filter, dec: Decoder<T>, limit: nat, days: nat)
    ensures |Collect(DayFetch(files, f, dec), limit, days)| <= limit
    ensures (forall k | 0 <= k < days :: forall l <- Tail(files(k), f) :: dec(l).Some?) ==>
              Collect(DayFetch(files, f, dec), limit, days) == Take(limit, NewestFirst(DayRecords(files, f, dec), days))
  {
    forall back: int, want: nat ensures |DayFetch(files, f, dec)(back, want)| <= want {
      DayMeetsQuota(files, f, dec, back, want);
    }
    CollectBound(DayFetch(files, f, dec), limit, days);
    if forall k | 0 <= k < days :: forall l <- Tail(files(k), f) :: dec(l).Some? {
      forall k: nat | k < days ensures MeetsQuota(DayFetch(files, f, dec), DayRecords(files, f, dec), limit, k) {
        DayServesQuota(files, f, dec, limit, k);
        var left := Left(files, f, dec, limit, k);
        if left > 0 {
          AllDecodeServes(dec, Tail(files(k), f), left);
        }
      }
      CollectNewest(DayFetch(files, f, dec), DayRecords(files, f, dec), limit, days);
    }
  }

  // ------------------------------------------------ whichever records there are

  /** Where a record is read: line `index`, counted from the newest kept line, of the file `back` days ago. */
  datatype Place = Place(back: int, index: nat)

  /** The lines that decode, by index. */
  function Hits<T>(dec: Decoder<T>, lines: seq<Line>): seq<nat> {
    if lines == [] then []
    else
      var n := |lines| - 1;
      Hits(dec, lines[..n]) + if dec(lines[n]).Some? then [n] else []
  }

  ghost predicate Located<T>(dec: Decoder<T>, lines: seq<Line>, hits: seq<nat>, records: seq<T>) {
    && |hits| == |records|
    && forall i | 0 <= i < |hits| :: hits[i] < |lines| && dec(lines[hits[i]]) == Some(records[i])
  }

  lemma {:induction false} HitsLocate<T>(dec: Decoder<T>, lines: seq<Line>)
    ensures Located(dec, lines, Hits(dec, lines), Decoded(dec, lines))
  {
    if lines != [] {
      var n := |lines| - 1;
      HitsLocate(dec, lines[..n]);
      assert lines == lines[..n] + [lines[n]];
      FlatMapAppend(DecodeOne(dec), lines[..n], [lines[n]]);
      FlatMapOne(DecodeOne(dec), lines[n]);
    }
  }

  lemma {:induction false} HitsPrefix<T>(dec: Decoder<T>, lines: seq<Line>, m: nat)
    requires m <= |lines|
    ensures Hits(dec, lines[..m]) <= Hits(dec, lines)
  {
    if m < |lines| {
      var n := |lines| - 1;
      assert lines[..n][..m] == lines[..m];
      HitsPrefix(dec, lines[..n], m);
    } else {
      assert lines[..m] == lines;
    }
  }

  function Places(back: int, hits: seq<nat>): (r: seq<Place>)
    ensures |r| == |hits| && forall i | 0 <= i < |hits| :: r[i] == Place(back, hits[i])
    ensures forall p <- r :: p.back == back
  {
    seq(|hits|, i requires 0 <= i < |hits| => Place(back, hits[i]))
  }

  /** Where the records that day `back` gives for a quota come from. */
  function PlaceFetch<T>(files: int -> File, f: Filter, dec: Decoder<T>): (int, nat) -> seq<Place> {
    (back: int, want: nat) => Places(back, Hits(dec, Take(want, Tail(files(back), f))))
  }

  /** Where all the records of day `back` are, newest first. */
  function PlaceRecords<T>(files: int -> File, f: Filter, dec: Decoder<T>): int -> seq<Place> {
    (back: int) => Places(back, Hits(dec, Tail(files(back), f)))
  }

  lemma PlaceLengths<T>(files: int -> File, f: Filter, dec: Decoder<T>, back: int, want: nat)
    ensures |PlaceFetch(files, f, dec)(back, want)| == |DayFetch(files, f, dec)(back, want)|
    ensures |PlaceRecords(files, f, dec)(back)| == |DayRecords(files, f, dec)(back)|
    ensures PlaceFetch(files, f, dec)(back, want) <= PlaceRecords(files, f, dec)(back)
  {
    var lines := Tail(files(back), f);
    HitsLocate(dec, lines);
    HitsLocate(dec, Take(want, lines));
    assert Take(want, lines) == lines[..|Take(want, lines)|];
    HitsPrefix(dec, lines, |Take(want, lines)|);
  }

  lemma PlacePrefixes<T>(files: int -> File, f: Filter, dec: Decoder<T>, days: nat)
    ensures Prefixes(PlaceFetch(files, f, dec), PlaceRecords(files, f, dec))
    ensures Apart(PlaceRecords(files, f, dec), days)
  {
    forall back: int, want: nat
      ensures PlaceFetch(files, f, dec)(back, want) <= PlaceRecords(files, f, dec)(back)
      ensures |PlaceFetch(files, f, dec)(back, want)| <= want
    {
      PlaceLengths(files, f, dec, back, want);
      DayMeetsQuota(files, f, dec, back, want);
    }
    forall i, j | 0 <= i < j < days
      ensures forall p <- PlaceRecords(files, f, dec)(i) :: p !in PlaceRecords(files, f, dec)(j)
    {
      PlacesApart(files, f, dec, i, j);
    }
  }

  lemma PlacesApart<T>(files: int -> File, f: Filter, dec: Decoder<T>, i: int, j: int)
    requires i != j
    ensures forall p <- PlaceRecords(files, f, dec)(i) :: p !in PlaceRecords(files, f, dec)(j)
  {
    var a, b := Places(i, Hits(dec, Tail(files(i), f))), Places(j, Hits(dec, Tail(files(j), f)));
    assert PlaceRecords(files, f, dec)(i) == a && PlaceRecords(files, f, dec)(j) == b;
    assert forall p <- a :: p.back == i;
    assert forall p <- b :: p.back == j;
  }

  lemma {:induction false} SameLengths<A, B>(a: int -> seq<A>, b: int -> seq<B>, days: nat)
    requires forall back :: |a(back)| == |b(back)|
    ensures |NewestFirst(a, days)| == |NewestFirst(b, days)|
  {
    if days > 0 {
      SameLengths(a, b, days - 1);
    }
  }

  /** A prefix of a list is its newest part if and only if it is as long. */
  lemma PrefixByLength<T>(got: seq<T>, all: seq<T>, want: nat)
    requires got <= all
    ensures got == Take(want, all) <==> |got| == |Take(want, all)|
  {
  }

  /** What two ways of reading a day have to agree on for their quotas to be met together. */
  ghost predicate AlikeOn<A, B>(fetch: (int, nat) -> seq<A>, records: int -> seq<A>,
                                fetch': (int, nat) -> seq<B>, records': int -> seq<B>, k: int, left: nat) {
    && fetch(k, left) <= records(k) && fetch'(k, left) <= records'(k)
    && |fetch(k, left)| == |fetch'(k, left)| && |records(k)| == |records'(k)|
  }

  lemma QuotasAlike<A, B>(fetch: (int, nat) -> seq<A>, records: int -> seq<A>,
                          fetch': (int, nat) -> seq<B>, records': int -> seq<B>, limit: nat, k: nat)
    requires |NewestFirst(records, k)| == |NewestFirst(records', k)|
    requires forall left: nat :: AlikeOn(fetch, records, fetch', records', k, left)
    ensures MeetsQuota(fetch, records, limit, k) <==> MeetsQuota(fetch', records', limit, k)
  {
    var left := limit - |NewestFirst(records, k)|;
    if left > 0 {
      assert AlikeOn(fetch, records, fetch', records', k, left);
      PrefixByLength(fetch(k, left), records(k), left);
      PrefixByLength(fetch'(k, left), records'(k), left);
    }
  }

  lemma PlaceQuota<T>(files: int -> File, f: Filter, dec: Decoder<T>, limit: nat, k: nat)
    requires |NewestFirst(PlaceRecords(files, f, dec), k)| == |NewestFirst(DayRecords(files, f, dec), k)|
    ensures MeetsQuota(PlaceFetch(files, f, dec), PlaceRecords(files, f, dec), limit, k) <==>
              MeetsQuota(DayFetch(files, f, dec), DayRecords(files, f, dec), limit, k)
  {
    forall left: nat
      ensures AlikeOn(PlaceFetch(files, f, dec), PlaceRecords(files, f, dec),
                      DayFetch(files, f, dec), DayRecords(files, f, dec), k, left)
    {
      PlaceLengths(files, f, dec, k, left);
      DayPrefix(files, f, dec, k, left);
    }
    QuotasAlike(PlaceFetch(files, f, dec), PlaceRecords(files, f, dec),
                DayFetch(files, f, dec), DayRecords(files, f, dec), limit, k);
  }

  /**
   * Whatever the records are: the places `DecodeTailDays` reads its records from are the newest `limit`
   * places of the last `days` day files that hold a record, if and only if on every day, for what the
   * later days leave of the limit, the lines it takes all decode or no older line of that day does.
   */
  lemma ReadsNewestExactly<T>(files: int -> File, f: Filter, dec: Decoder<T>, limit: nat, days: nat)
    ensures Collect(PlaceFetch(files, f, dec), limit, days) ==
            Take(limit, NewestFirst(PlaceRecords(files, f, dec), days)) <==>
            forall k: nat | k < days :: DayServes(files, f, dec, limit, k)
  {
    PlacePrefixes(files, f, dec, days);
    NewestExactly(PlaceFetch(files, f, dec), PlaceRecords(files, f, dec), limit, days);
    forall back ensures |PlaceRecords(files, f, dec)(back)| == |DayRecords(files, f, dec)(back)| {
      PlaceLengths(files, f, dec, back, 0);
    }
    forall k: nat | k < days
      ensures MeetsQuota(PlaceFetch(files, f, dec), PlaceRecords(files, f, dec), limit, k) <==>
              DayServes(files, f, dec, limit, k)
    {
      SameLengths(PlaceRecords(files, f, dec), DayRecords(files, f, dec), k);
      PlaceQuota(files, f, dec, limit, k);
      DayServesQuota(files, f, dec, limit, k);
    }
  }

  ghost predicate ReadAt<T>(files: int -> File, f: Filter, dec: Decoder<T>, p: Place, x: T) {
    var lines := Tail(files(p.back), f);
    p.index < |lines| && dec(lines[p.index]) == Some(x)
  }

  ghost predicate Matched<A, B>(rel: (A, B) -> bool, a: seq<A>, b: seq<B>) {
    |a| == |b| && forall i | 0 <= i < |a| :: rel(a[i], b[i])
  }

  lemma {:induction false} CollectMatched<A, B>(rel: (A, B) -> bool, a: (int, nat) -> seq<A>, b: (int, nat) -> seq<B>,
                                                limit: nat, days: nat)
    requires forall back: int, want: nat :: Matched(rel, a(back, want), b(back, want))
    ensures Matched(rel, Collect(a, limit, days), Collect(b, limit, days))
  {
    if days > 0 {
      CollectMatched(rel, a, b, limit, days - 1);
      var out := Collect(b, limit, days - 1);
      if |out| < limit {
        assert Matched(rel, a(days - 1, limit - |out|), b(days - 1, limit - |out|));
      }
    }
  }

  /** Record by record, what is read at those places is what `DecodeTailDays` gives. */
  lemma PlacesOfRecords<T>(files: int -> File, f: Filter, dec: Decoder<T>, limit: nat, days: nat)
    ensures var places := Collect(PlaceFetch(files, f, dec), limit, days);
            var out := Collect(DayFetch(files, f, dec), limit, days);
            |places| == |out| && forall i | 0 <= i < |out| :: ReadAt(files, f, dec, places[i], out[i])
  {
    ghost var rel := (p: Place, x: T) => ReadAt(files, f, dec, p, x);
    forall back: int, want: nat
      ensures Matched(rel, PlaceFetch(files, f, dec)(back, want), DayFetch(files, f, dec)(back, want))
    {
      HitsLocate(dec, Take(want, Tail(files(back), f)));
    }
    CollectMatched(rel, PlaceFetch(files, f, dec), DayFetch(files, f, dec), limit, days);
    var places, out := Collect(PlaceFetch(files, f, dec), limit, days), Collect(DayFetch(files, f, dec), limit, days);
    forall i | 0 <= i < |out| ensures ReadAt(files, f, dec, places[i], out[i]) {
      assert rel(places[i], out[i]);
    }
  }

  // --------------------------------------------------------------- an input

  /** Every day file has an older line that decodes and a newer one that does not. */
  function HalfBad(back: int): File {
    Present([65, LF, 66], {}, None)
  }

  function OnlyA(line: Line): Option<int> {
    if line == [65] then Some(65) else None
  }

  lemma HalfBadTail(back: int)
    ensures Tail(HalfBad(back), None) == [[66], [65]]
  {
    var a, b: Line := [65], [66];
    KeptAppend(a, b, None);
    KeptOneLine(a, None);
    KeptOneLine(b, None);
    assert a + [LF] + b == HalfBad(back).bytes;
    assert Kept(HalfBad(back).bytes, None) == [a] + [b];
    ReverseAppend([a], [b]);
    assert Reverse([a]) == [a] && Reverse([b]) == [b];
  }

  /** Asked for one record, the reader takes the undecodable line and gives none, although there is one. */
  lemma OlderRecordMissed()
    ensures Collect(DayFetch(HalfBad, None, OnlyA), 1, 1) == []
    ensures Take(1, NewestFirst(DayRecords(HalfBad, None, OnlyA), 1)) == [65]
  {
    var a, b: Line := [65], [66];
    HalfBadTail(0);
    assert b[0] != a[0] && OnlyA(b) == None;
    assert Take(1, [b, a]) == [b] && [b] + [a] == [b, a];
    FlatMapOne(DecodeOne(OnlyA), b);
    FlatMapOne(DecodeOne(OnlyA), a);
    FlatMapAppend(DecodeOne(OnlyA), [b], [a]);
    var dec: Decoder<int> := OnlyA;
    assert OnlyA(a) == Some(65);
    assert dec(a) == Some(65);
    assert DecodeOne(dec)(a) == [65];
    assert Decoded(OnlyA, [b]) == [] && Decoded(OnlyA, [a]) == [65];
    assert Decoded(OnlyA, [b, a]) == [] + [65] == [65];
    var files: int -> File := HalfBad;
    assert files(0) == HalfBad(0);
    assert DayFetch(files, None, OnlyA)(0, 1) == Decoded(OnlyA, Take(1, Tail(files(0), None))) == [];
    assert DayRecords(files, None, OnlyA)(0) == Decoded(OnlyA, Tail(files(0), None)) == [65];
    assert NewestFirst(DayRecords(HalfBad, None, OnlyA), 0) == [];
    assert Collect(DayFetch(HalfBad, None, OnlyA), 1, 0) == [];
  }
}
