/** Retention: which day files CleanOlderThan deletes. */
module JsonlRetain {
  import opened Calendar
  import opened JsonlLines
  import opened JsonlReader
  import opened JsonlNaming
  import opened JsonlScan
  import opened Sequences

  /** Length of a date in the layout 2006-01-02. */
  const DATE_LENGTH: nat := 10

  predicate HasPrefix(s: string, p: string) {
    |p| <= |s| && s[..|p|] == p
  }

  predicate HasSuffix(s: string, p: string) {
    |p| <= |s| && s[|s| - |p|..] == p
  }

  function TrimPrefix(s: string, p: string): string {
    if HasPrefix(s, p) then s[|p|..] else s
  }

  function TrimSuffix(s: string, p: string): string {
    if HasSuffix(s, p) then s[..|s| - |p|] else s
  }

  /** The glob `Prefix + Sep + "????-??-??" + Suffix`, for a naming without glob characters. */
  predicate Globbed(n: Naming, name: string) {
    var pre := n.prefix + n.sep;
    && |name| == |pre| + DATE_LENGTH + |n.suffix|
    && HasPrefix(name, pre) && HasSuffix(name, n.suffix)
    && name[|pre| + 4] == name[|pre| + 7] == '-'
  }

  /** The date text the cleaner finds in a name. */
  function DateIn(n: Naming, name: string): string {
    var mid := TrimSuffix(name, n.suffix);
    if n.prefix != "" then TrimPrefix(mid, n.prefix + n.sep) else mid
  }

  /** The cleaner wants `name` gone: it matches, and its date does not come after the cutoff's. */
  predicate Doomed(n: Naming, cutoff: string, name: string) {
    && Globbed(n, name)
    && |DateIn(n, name)| == DATE_LENGTH
    && !LexLess(cutoff, DateIn(n, name))
  }

  /** What is left when the names in `stuck` cannot be removed. */
  function Cleaned(files: Folder, n: Naming, cutoff: string, stuck: set<string>): Folder {
    map name | name in files && (!Doomed(n, cutoff, name) || name in stuck) :: files[name]
  }

  class Directory {
    var files: Folder

    method CleanOlderThan(n: Naming, retainDays: int, today: Date, stuck: set<string>) returns (errs: seq<string>)
      requires ValidDate(today)
      modifies this
      ensures retainDays <= 0 ==> files == old(files) && errs == []
      ensures retainDays > 0 ==>
                var cutoff := Format(AddDays(today, -retainDays));
                && files == Cleaned(old(files), n, cutoff, stuck)
                && (forall name :: name in errs <==> name in old(files) && Doomed(n, cutoff, name) && name in stuck)
                && (forall name :: name in files <==>
                      name in old(files) && (Doomed(n, cutoff, name) ==> name in stuck))
                && (forall name <- files :: files[name] == old(files)[name])
    {
      errs := [];
      if retainDays <= 0 {
        return;
      }
      var cutoff := Format(AddDays(today, -retainDays));
      errs := RemoveUpTo(n, cutoff, stuck);
    }

    /** The loop over the matches of the glob. */
    method RemoveUpTo(n: Naming, cutoff: string, stuck: set<string>) returns (errs: seq<string>)
      modifies this
      ensures files == Cleaned(old(files), n, cutoff, stuck)
      ensures forall name :: name in errs <==> name in old(files) && Doomed(n, cutoff, name) && name in stuck
      ensures forall name :: name in files <==> name in old(files) && (Doomed(n, cutoff, name) ==> name in stuck)
      ensures forall name <- files :: files[name] == old(files)[name]
    {
      errs := [];
      var matches := set name | name in files && Globbed(n, name);
      ghost var seen: set<string> := {};
      while matches != {}
        invariant forall name :: name in matches + seen <==> name in old(files) && Globbed(n, name)
        invariant matches !! seen
        invariant files == map name | name in old(files) && (name !in seen || !Doomed(n, cutoff, name) || name in stuck)
                            :: old(files)[name]
        invariant forall name :: name in errs <==> name in seen && Doomed(n, cutoff, name) && name in stuck
      {
        var name :| name in matches;
        matches := matches - {name};
        seen := seen + {name};
        var mid := DateIn(n, name);
        if |mid| != DATE_LENGTH || LexLess(cutoff, mid) {
          continue;
        }
        if name in stuck {
          errs := errs + [name];
        } else {
          files := files - {name};
        }
      }
    }
  }

  /** Naming a date and trimming the name again gives the date back, unless a separator stands without a prefix. */
  lemma TrimInvertsNaming(n: Naming, date: string)
    requires |date| == DATE_LENGTH && date[4] == date[7] == '-'
    ensures Globbed(n, n.FileName(date)) <==> n.prefix != "" || n.sep == ""
    ensures n.prefix != "" || n.sep == "" ==> DateIn(n, n.FileName(date)) == date
  {
    var pre, name := n.Head(), n.FileName(date);
    assert name == pre + date + n.suffix;
    assert name[..|name| - |n.suffix|] == pre + date && name[|name| - |n.suffix|..] == n.suffix;
    assert (pre + date)[..|pre|] == pre && (pre + date)[|pre|..] == date;
    if n.prefix != "" || n.sep == "" {
      assert n.prefix + n.sep == pre;
      assert name[..|pre|] == pre && name[|pre| + 4] == date[4] && name[|pre| + 7] == date[7];
    }
  }

  /**
   * The file of a date is deleted exactly when the date is at least `retainDays` days old, in
   * calendar order, and the naming does not have a separator without a prefix.
   */
  lemma CleaningIsByDate(n: Naming, today: Date, retainDays: int, d: Date)
    requires ValidDate(today) && FourDigitYear(d) && FourDigitYear(AddDays(today, -retainDays))
    ensures Doomed(n, Format(AddDays(today, -retainDays)), n.FileName(Format(d))) <==>
              (n.prefix != "" || n.sep == "") && DayNumber(d) <= DayNumber(today) - retainDays
  {
    var cutoff := AddDays(today, -retainDays);
    FormatShape(d);
    TrimInvertsNaming(n, Format(d));
    FormatOrder(cutoff, d);
    CalendarOrder(cutoff, d);
  }

  /** So of the files that are there, cleaning leaves exactly those that are too young, are stuck or have such a name. */
  lemma LeftByDate(files: Folder, n: Naming, today: Date, retainDays: int, stuck: set<string>, d: Date)
    requires ValidDate(today) && FourDigitYear(d) && FourDigitYear(AddDays(today, -retainDays))
    ensures var name := n.FileName(Format(d));
            name in Cleaned(files, n, Format(AddDays(today, -retainDays)), stuck) <==>
              && name in files
              && (name in stuck || (n.prefix == "" && n.sep != "") || DayNumber(d) > DayNumber(today) - retainDays)
  {
    CleaningIsByDate(n, today, retainDays, d);
  }

  /** A naming with a separator and no prefix is never cleaned, however old its files. */
  lemma SeparatorWithoutPrefix(d: Date, cutoff: string)
    requires FourDigitYear(d)
    ensures !Doomed(Naming("", "-", ".jsonl"), cutoff, Naming("", "-", ".jsonl").FileName(Format(d)))
  {
    FormatShape(d);
    TrimInvertsNaming(Naming("", "-", ".jsonl"), Format(d));
  }

  lemma {:induction false} SameFilesSameScan(a: Folder, b: Folder, n: Naming, dates: seq<string>, f: Filter,
                                             h: Handler, seen: seq<Line>)
    requires forall d <- dates :: Open(a, n.FileName(d)) == Open(b, n.FileName(d))
    ensures ScanDates(a, n, dates, f, h, seen) == ScanDates(b, n, dates, f, h, seen)
  {
    if dates != [] {
      assert dates[0] in dates;
      var r := ScanResult(Open(a, n.FileName(dates[0])), f, h, seen);
      SameFilesSameScan(a, b, n, dates[1..], f, h, r.1);
    }
  }

  lemma UndoomedFilesKept(dir: Folder, n: Naming, gone: string, stuck: set<string>, dates: seq<string>, f: Filter,
                          h: Handler)
    requires forall d <- dates :: !Doomed(n, gone, n.FileName(d))
    ensures ScanDates(Cleaned(dir, n, gone, stuck), n, dates, f, h, []) == ScanDates(dir, n, dates, f, h, [])
  {
    SameFilesSameScan(Cleaned(dir, n, gone, stuck), dir, n, dates, f, h, []);
  }

  /** Cleaning does not touch what a scan over the retained days sees, whatever its filter and handler. */
  lemma CleaningKeepsScans(dir: Folder, n: Naming, today: Date, retainDays: int, stuck: set<string>,
                           cutoff: int, now: int, offset: int, f: Filter, h: Handler)
    requires ValidDate(today) && FourDigitYear(AddDays(today, -retainDays))
    requires DayNumber(today) - retainDays < DayOf(cutoff, offset)
    requires FourDigitYear(FromDayNumber(DayOf(RangeEnd(cutoff, now), offset)))
    ensures var kept := Cleaned(dir, n, Format(AddDays(today, -retainDays)), stuck);
            ScanDates(kept, n, ScanDays(cutoff, now, offset), f, h, []) ==
            ScanDates(dir, n, ScanDays(cutoff, now, offset), f, h, [])
  {
    var gone := Format(AddDays(today, -retainDays));
    var lo, hi := DayOf(cutoff, offset), DayOf(RangeEnd(cutoff, now), offset);
    RetainedDays(n, today, retainDays, gone, lo, hi);
    UndoomedFilesKept(dir, n, gone, stuck, DayNames(lo, hi), f, h);
  }

  function Spared(n: Naming, cutoff: string): string -> bool {
    (date: string) => !Doomed(n, cutoff, n.FileName(date))
  }

  lemma RetainedDays(n: Naming, today: Date, retainDays: int, gone: string, lo: int, hi: int)
    requires ValidDate(today) && FourDigitYear(AddDays(today, -retainDays))
    requires gone == Format(AddDays(today, -retainDays))
    requires DayNumber(today) - retainDays < lo && FourDigitYear(FromDayNumber(hi))
    ensures forall d <- DayNames(lo, hi) :: !Doomed(n, gone, n.FileName(d))
  {
    var spared := Spared(n, gone);
    forall day | lo <= day <= hi ensures spared(DayName(day)) {
      RetainedDay(n, today, retainDays, day, hi);
    }
    RangeAll(DayName, lo, hi, spared);
    assert forall d <- DayNames(lo, hi) :: spared(d);
  }

  lemma RetainedDay(n: Naming, today: Date, retainDays: int, day: int, last: int)
    requires ValidDate(today) && FourDigitYear(AddDays(today, -retainDays))
    requires DayNumber(today) - retainDays < day <= last && FourDigitYear(FromDayNumber(last))
    ensures !Doomed(n, Format(AddDays(today, -retainDays)), n.FileName(DayName(day)))
  {
    YearBetween(AddDays(today, -retainDays), FromDayNumber(day), FromDayNumber(last));
    CleaningIsByDate(n, today, retainDays, FromDayNumber(day));
  }
}
