/** Names of the day files, and the days of a time range. */
module JsonlNaming {
  import opened Calendar
  import opened Sequences

  datatype Naming = Naming(prefix: string, sep: string, suffix: string) {

    function FileName(date: string): string {
      if prefix == "" then date + suffix else prefix + sep + date + suffix
    }

    /** What the file name puts before the date. */
    function Head(): string {
      if prefix == "" then "" else prefix + sep
    }
  }

  /** No two dates share a file, whatever the naming. */
  lemma FileNameInjective(n: Naming, a: string, b: string)
    ensures n.FileName(a) == n.FileName(b) <==> a == b
  {
    var h := n.Head();
    assert n.FileName(a) == h + a + n.suffix && n.FileName(b) == h + b + n.suffix;
    if n.FileName(a) == n.FileName(b) {
      assert |a| == |b|;
      assert a == n.FileName(a)[|h|..|h| + |a|] == b;
    }
  }

  /** The name of a day, by its number. */
  function DayName(n: int): string {
    Format(FromDayNumber(n))
  }

  /** The names of the days `lo` to `hi`. */
  function DayNames(lo: int, hi: int): seq<string> {
    Range(DayName, lo, hi)
  }

  /** The last instant a range is read up to: never before its start. */
  function RangeEnd(from: int, to: int): int {
    if to < from then from else to
  }

  /** The loop from one local midnight to another, each given by its day number; `layout` formats them. */
  method DaysBetween(layout: int -> string, start: int, end: int) returns (days: seq<string>)
    requires start <= end
    ensures days == Range(layout, start, end)
  {
    days := [];
    var d := start;
    while d <= end
      invariant start <= d <= end + 1
      invariant days == Range(layout, start, d - 1)
    {
      days := days + [layout(d)];
      d := d + 1;
    }
  }

  method DaysInRange(from: int, to: int, offset: int) returns (days: seq<string>)
    ensures days == DayNames(DayOf(from, offset), DayOf(RangeEnd(from, to), offset))
  {
    DayMonotone(from, RangeEnd(from, to), offset);
    days := DaysBetween(DayName, DayOf(from, offset), DayOf(RangeEnd(from, to), offset));
  }

  /** A range that ends before it starts has its first day only. */
  lemma RangeDays(from: int, to: int, offset: int)
    ensures var days := DayNames(DayOf(from, offset), DayOf(RangeEnd(from, to), offset));
            days == if from <= to then DayNames(DayOf(from, offset), DayOf(to, offset))
                    else [DayName(DayOf(from, offset))]
  {
    var day := DayOf(from, offset);
    assert DayNames(day, day) == DayNames(day, day - 1) + [DayName(day)];
  }

  lemma NameOfDate(d: Date)
    requires ValidDate(d)
    ensures FromDayNumber(DayNumber(d)) == d
    ensures DayName(DayNumber(d)) == Format(d)
  {
    CalendarOrder(FromDayNumber(DayNumber(d)), d);
  }

  lemma NameBack(d: Date, back: int)
    requires ValidDate(d)
    ensures DayName(DayNumber(d) - back) == Format(AddDays(d, -back))
  {
    NameOfDate(AddDays(d, -back));
  }

  /**
   * Counting day numbers is Go's AddDate(0, 0, 1), and gives the next calendar day, so the list of a range is
   * gapless.
   */
  lemma NextName(n: int)
    ensures DayName(n + 1) == Format(AddDays(FromDayNumber(n), 1)) == Format(NextDay(FromDayNumber(n)))
  {
    AddOneDay(FromDayNumber(n));
    NextDayNumber(FromDayNumber(n));
    NameOfDate(NextDay(FromDayNumber(n)));
  }

  /** They have the day of every instant of the range, at the place its distance from the start gives. */
  lemma DaysCover(from: int, to: int, offset: int, t: int)
    requires from <= t <= to
    ensures var days, k := DayNames(DayOf(from, offset), DayOf(to, offset)), DayOf(t, offset) - DayOf(from, offset);
            0 <= k < |days| && days[k] == Format(DateOf(t, offset))
  {
    DayMonotone(from, t, offset);
    DayMonotone(t, to, offset);
    var lo, n := DayOf(from, offset), DayOf(t, offset);
    assert DayNames(lo, DayOf(to, offset))[n - lo] == DayName(lo + (n - lo));
  }

  /** They increase, as dates and (within four-digit years) as strings. */
  lemma DaysIncrease(lo: int, hi: int, i: nat, j: nat)
    requires i < j < |DayNames(lo, hi)|
    requires FourDigitYear(FromDayNumber(lo)) && FourDigitYear(FromDayNumber(hi))
    ensures Before(FromDayNumber(lo + i), FromDayNumber(lo + j))
    ensures LexLess(DayNames(lo, hi)[i], DayNames(lo, hi)[j])
  {
    var a, b := FromDayNumber(lo + i), FromDayNumber(lo + j);
    YearBetween(FromDayNumber(lo), a, FromDayNumber(hi));
    YearBetween(FromDayNumber(lo), b, FromDayNumber(hi));
    CalendarOrder(a, b);
    FormatOrder(a, b);
    assert DayNames(lo, hi)[i] == DayName(lo + i) && DayNames(lo, hi)[j] == DayName(lo + j);
  }

  /** Later instants never fall on earlier days. */
  lemma DayMonotone(a: int, b: int, offset: int)
    ensures a <= b ==> DayOf(a, offset) <= DayOf(b, offset)
  {
    var x, y := a + offset, b + offset;
    assert x == SECONDS_PER_DAY * (x / SECONDS_PER_DAY) + x % SECONDS_PER_DAY;
    assert y == SECONDS_PER_DAY * (y / SECONDS_PER_DAY) + y % SECONDS_PER_DAY;
  }

  lemma YearBetween(a: Date, d: Date, b: Date)
    requires ValidDate(a) && ValidDate(d) && ValidDate(b) && DayNumber(a) <= DayNumber(d) <= DayNumber(b)
    ensures a.year <= d.year <= b.year
  {
    CalendarOrder(d, a);
    CalendarOrder(b, d);
  }
}
