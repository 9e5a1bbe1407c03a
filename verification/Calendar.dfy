/** Civil dates, their day numbers and their YYYY-MM-DD names, for zones with a fixed offset. */
module Calendar {

  datatype Date = Date(year: int, month: int, day: int)

  predicate IsLeap(y: int) {
    y % 4 == 0 && (y % 100 != 0 || y % 400 == 0)
  }

  function DaysInMonth(y: int, m: int): int {
    if m == 2 then (if IsLeap(y) then 29 else 28)
    else if m == 4 || m == 6 || m == 9 || m == 11 then 30
    else 31
  }

  predicate ValidDate(d: Date) {
    1 <= d.month <= 12 && 1 <= d.day <= DaysInMonth(d.year, d.month)
  }

  /** Days of year `y` before month `m`. */
  function DaysBefore(y: int, m: int): int
    requires 1 <= m <= 12
    decreases m
  {
    if m == 1 then 0 else DaysBefore(y, m - 1) + DaysInMonth(y, m - 1)
  }

  /** Days before the first of January of year `y`. */
  function YearStart(y: int): int {
    365 * (y - 1) + (y - 1) / 4 - (y - 1) / 100 + (y - 1) / 400
  }

  /** The number of the day; consecutive days have consecutive numbers. */
  function DayNumber(d: Date): int
    requires ValidDate(d)
  {
    YearStart(d.year) + DaysBefore(d.year, d.month) + d.day
  }

  function NextDay(d: Date): (r: Date)
    requires ValidDate(d)
    ensures ValidDate(r)
  {
    if d.day < DaysInMonth(d.year, d.month) then Date(d.year, d.month, d.day + 1)
    else if d.month < 12 then Date(d.year, d.month + 1, 1)
    else Date(d.year + 1, 1, 1)
  }

  function PrevDay(d: Date): (r: Date)
    requires ValidDate(d)
    ensures ValidDate(r)
  {
    if d.day > 1 then Date(d.year, d.month, d.day - 1)
    else if d.month > 1 then Date(d.year, d.month - 1, DaysInMonth(d.year, d.month - 1))
    else Date(d.year - 1, 12, 31)
  }

  lemma YearLength(y: int)
    ensures DaysBefore(y, 12) + 31 == if IsLeap(y) then 366 else 365
  {
    assert DaysBefore(y, 5) == 31 + DaysInMonth(y, 2) + 31 + 30;
    assert DaysBefore(y, 8) == DaysBefore(y, 5) + 31 + 30 + 31;
    assert DaysBefore(y, 10) == DaysBefore(y, 8) + 31 + 30;
  }

  lemma YearStartStep(y: int)
    ensures YearStart(y + 1) == YearStart(y) + (if IsLeap(y) then 366 else 365)
  {
    assert y / 4 == (y - 1) / 4 + (if y % 4 == 0 then 1 else 0);
    assert y / 100 == (y - 1) / 100 + (if y % 100 == 0 then 1 else 0);
    assert y / 400 == (y - 1) / 400 + (if y % 400 == 0 then 1 else 0);
    assert y % 400 == 0 ==> y % 100 == 0;
    assert y % 100 == 0 ==> y % 4 == 0;
  }

  lemma NextDayNumber(d: Date)
    requires ValidDate(d)
    ensures DayNumber(NextDay(d)) == DayNumber(d) + 1
  {
    YearLength(d.year);
    YearStartStep(d.year);
  }

  lemma PrevDayNumber(d: Date)
    requires ValidDate(d)
    ensures NextDay(PrevDay(d)) == d
    ensures DayNumber(PrevDay(d)) == DayNumber(d) - 1
  {
    NextDayNumber(PrevDay(d));
  }

  /** Thursday, 1 January 1970. */
  const EPOCH := Date(1970, 1, 1)

  const EPOCH_NUMBER := 719163

  /** The date with a given day number, counted from the epoch. */
  function FromDayNumber(n: int): (d: Date)
    ensures ValidDate(d) && DayNumber(d) == n
    decreases if n < EPOCH_NUMBER then EPOCH_NUMBER - n else n - EPOCH_NUMBER
  {
    if n == EPOCH_NUMBER then EPOCH
    else if n > EPOCH_NUMBER then
      var p := FromDayNumber(n - 1);
      NextDayNumber(p);
      NextDay(p)
    else
      var p := FromDayNumber(n + 1);
      PrevDayNumber(p);
      PrevDay(p)
  }

  /** Calendar order: by year, then month, then day. */
  predicate Before(a: Date, b: Date) {
    a.year < b.year || (a.year == b.year && (a.month < b.month || (a.month == b.month && a.day < b.day)))
  }

  lemma {:induction false} MonthsGrow(y: int, m: int, m': int)
    requires 1 <= m < m' <= 12
    ensures DaysBefore(y, m) + DaysInMonth(y, m) <= DaysBefore(y, m')
    decreases m' - m
  {
    if m + 1 < m' {
      MonthsGrow(y, m, m' - 1);
    }
  }

  lemma {:induction false} YearsGrow(y: int, y': int)
    requires y < y'
    ensures YearStart(y) + (if IsLeap(y) then 366 else 365) <= YearStart(y')
    decreases y' - y
  {
    if y + 1 < y' {
      YearsGrow(y, y' - 1);
      YearStartStep(y' - 1);
    } else {
      YearStartStep(y);
    }
  }

  lemma BeforeNumber(a: Date, b: Date)
    requires ValidDate(a) && ValidDate(b) && Before(a, b)
    ensures DayNumber(a) < DayNumber(b)
  {
    if a.year < b.year {
      YearsGrow(a.year, b.year);
      YearLength(a.year);
      if a.month < 12 {
        MonthsGrow(a.year, a.month, 12);
      }
      if b.month > 1 {
        MonthsGrow(b.year, 1, b.month);
      }
    } else if a.month < b.month {
      MonthsGrow(a.year, a.month, b.month);
    }
  }

  /** Day numbers order dates exactly as the calendar does. */
  lemma CalendarOrder(a: Date, b: Date)
    requires ValidDate(a) && ValidDate(b)
    ensures Before(a, b) <==> DayNumber(a) < DayNumber(b)
    ensures DayNumber(a) == DayNumber(b) ==> a == b
  {
    if Before(a, b) {
      BeforeNumber(a, b);
    } else if a != b {
      BeforeNumber(b, a);
    }
  }

  // ------------------------------------------------------------------ names

  function Digit(d: int): char
    requires 0 <= d < 10
  {
    '0' + d as char
  }

  /** `n` in decimal with at least `width` digits. */
  function Pad(n: nat, width: nat): (s: string)
    ensures |s| >= width
    decreases n, width
  {
    if n < 10 && width <= 1 then [Digit(n)]
    else Pad(n / 10, if width == 0 then 0 else width - 1) + [Digit(n % 10)]
  }

  /** Go's `Format("2006-01-02")`. */
  function Format(d: Date): string
    requires ValidDate(d)
  {
    (if d.year < 0 then "-" + Pad(-d.year, 4) else Pad(d.year, 4)) + ("-" + (Pad(d.month, 2) + ("-" + Pad(d.day, 2))))
  }

  predicate FourDigitYear(d: Date) {
    ValidDate(d) && 0 <= d.year <= 9999
  }

  /** Go's `<` on strings. */
  predicate LexLess(a: string, b: string) {
    b != [] && (a == [] || a[0] < b[0] || (a[0] == b[0] && LexLess(a[1..], b[1..])))
  }

  function Pow10(w: nat): nat {
    if w == 0 then 1 else 10 * Pow10(w - 1)
  }

  /** Comparing strings with heads of equal length: first the heads, then the rest. */
  lemma {:induction false} LexAppend(a: string, b: string, c: string, d: string)
    requires |a| == |b|
    ensures LexLess(a + c, b + d) <==> LexLess(a, b) || (a == b && LexLess(c, d))
  {
    if a == [] {
      assert a + c == c && b + d == d;
    } else {
      LexAppend(a[1..], b[1..], c, d);
      assert (a + c)[1..] == a[1..] + c && (b + d)[1..] == b[1..] + d;
      assert a == b <==> a[0] == b[0] && a[1..] == b[1..] by {
        assert a == [a[0]] + a[1..] && b == [b[0]] + b[1..];
      }
    }
  }

  /** Numbers padded to the same width compare as strings the way they compare as numbers. */
  lemma {:induction false} PadOrder(m: nat, n: nat, w: nat)
    requires w > 0 && m < Pow10(w) && n < Pow10(w)
    ensures |Pad(m, w)| == |Pad(n, w)| == w
    ensures LexLess(Pad(m, w), Pad(n, w)) <==> m < n
    ensures Pad(m, w) == Pad(n, w) <==> m == n
  {
    if w == 1 {
      assert Pow10(1) == 10 * Pow10(0);
    } else {
      PadOrder(m / 10, n / 10, w - 1);
      var pm, pn, dm, dn := Pad(m / 10, w - 1), Pad(n / 10, w - 1), [Digit(m % 10)], [Digit(n % 10)];
      assert Pad(m, w) == pm + dm && Pad(n, w) == pn + dn;
      LexAppend(pm, pn, dm, dn);
      assert LexLess(dm, dn) <==> m % 10 < n % 10;
      assert pm == (pm + dm)[..w - 1] && pn == (pn + dn)[..w - 1];
      assert dm[0] == (pm + dm)[w - 1] && dn[0] == (pn + dn)[w - 1];
    }
  }

  /** A padded number followed by more text: the number decides first. */
  lemma PadThen(m: nat, n: nat, w: nat, c: string, d: string)
    requires w > 0 && m < Pow10(w) && n < Pow10(w)
    ensures LexLess(Pad(m, w) + c, Pad(n, w) + d) <==> m < n || (m == n && LexLess(c, d))
    ensures Pad(m, w) + c == Pad(n, w) + d <==> m == n && c == d
  {
    PadOrder(m, n, w);
    LexAppend(Pad(m, w), Pad(n, w), c, d);
    var a, b := Pad(m, w), Pad(n, w);
    assert (a + c)[..w] == a && (a + c)[w..] == c && (b + d)[..w] == b && (b + d)[w..] == d;
  }

  lemma DashThen(c: string, d: string)
    ensures LexLess("-" + c, "-" + d) <==> LexLess(c, d)
    ensures "-" + c == "-" + d <==> c == d
  {
    assert ("-" + c)[1..] == c && ("-" + d)[1..] == d;
  }

  /** For four-digit years the names sort as the dates do, all have ten characters, and none is shared. */
  lemma FormatOrder(a: Date, b: Date)
    requires FourDigitYear(a) && FourDigitYear(b)
    ensures LexLess(Format(a), Format(b)) <==> Before(a, b)
    ensures Format(a) == Format(b) <==> a == b
  {
    assert Pow10(4) == 10000 && Pow10(2) == 100;
    var da, db := Pad(a.day, 2), Pad(b.day, 2);
    var ma, mb := Pad(a.month, 2) + ("-" + da), Pad(b.month, 2) + ("-" + db);
    PadOrder(a.day, b.day, 2);
    DashThen(da, db);
    PadThen(a.month, b.month, 2, "-" + da, "-" + db);
    DashThen(ma, mb);
    PadThen(a.year, b.year, 4, "-" + ma, "-" + mb);
  }

  /** They have ten characters, with dashes where the layout has them. */
  lemma FormatShape(d: Date)
    requires FourDigitYear(d)
    ensures |Format(d)| == 10 && Format(d)[4] == Format(d)[7] == '-'
  {
    assert Pow10(4) == 10000 && Pow10(2) == 100;
    PadOrder(d.year, d.year, 4);
    PadOrder(d.month, d.month, 2);
    PadOrder(d.day, d.day, 2);
  }

  // --------------------------------------------------------------- instants

  const SECONDS_PER_DAY := 86400

  /** The local day number of a Unix second in a zone `offset` seconds east of UTC. */
  function DayOf(unix: int, offset: int): int {
    EPOCH_NUMBER + (unix + offset) / SECONDS_PER_DAY
  }

  function DateOf(unix: int, offset: int): (d: Date)
    ensures ValidDate(d) && DayNumber(d) == DayOf(unix, offset)
  {
    FromDayNumber(DayOf(unix, offset))
  }

  /** `AddDate(0, 0, n)` on a local date. */
  function AddDays(d: Date, n: int): (r: Date)
    requires ValidDate(d)
    ensures ValidDate(r) && DayNumber(r) == DayNumber(d) + n
  {
    FromDayNumber(DayNumber(d) + n)
  }

  /** Day arithmetic by numbers is the step from one date to the next. */
  lemma AddOneDay(d: Date)
    requires ValidDate(d)
    ensures AddDays(d, 1) == NextDay(d)
    ensures AddDays(d, -1) == PrevDay(d)
  {
    NextDayNumber(d);
    PrevDayNumber(d);
    CalendarOrder(AddDays(d, 1), NextDay(d));
    CalendarOrder(AddDays(d, -1), PrevDay(d));
  }

  /** The date a day number names, for a date at hand. */
  lemma DateIs(unix: int, offset: int, d: Date)
    requires ValidDate(d) && DayNumber(d) == DayOf(unix, offset)
    ensures DateOf(unix, offset) == d
  {
    CalendarOrder(DateOf(unix, offset), d);
  }

  /**
   * A local day begins at the midnight its zone's clocks show: `offset` seconds earlier, in Unix time, than
   * the same midnight in UTC.
   */
  lemma LocalDay(unix: int, offset: int, days: int)
    ensures DayOf(unix, offset) == DayOf(0, 0) + days <==>
            days * SECONDS_PER_DAY - offset <= unix < (days + 1) * SECONDS_PER_DAY - offset
  {
    var x := unix + offset;
    var q, r := x / SECONDS_PER_DAY, x % SECONDS_PER_DAY;
    assert x == SECONDS_PER_DAY * q + r;
  }

  /** Second 0 is the start of 1970 in UTC; with the next two this ties the calendar to the clock. */
  lemma UnixEpoch()
    ensures DateOf(0, 0) == Date(1970, 1, 1) && DateOf(-1, 0) == Date(1969, 12, 31)
  {
    assert DaysBefore(1970, 1) == 0;
    DateIs(0, 0, Date(1970, 1, 1));
    MonthStarts(1969);
    DateIs(-1, 0, Date(1969, 12, 31));
  }

  /** Eight hours east of UTC a day begins at 16:00 UTC of the day before. */
  lemma EastOfUtc()
    ensures DateOf(57599, 28800) == Date(1970, 1, 1) && DateOf(57600, 28800) == Date(1970, 1, 2)
  {
    assert DaysBefore(1970, 1) == 0;
    DateIs(57599, 28800, Date(1970, 1, 1));
    DateIs(57600, 28800, Date(1970, 1, 2));
  }

  lemma MonthStarts(y: int)
    ensures var leap := if IsLeap(y) then 1 else 0;
            DaysBefore(y, 1) == 0 && DaysBefore(y, 2) == 31 && DaysBefore(y, 3) == 59 + leap
            && DaysBefore(y, 12) == 334 + leap
  {
    assert DaysBefore(y, 1) == 0;
    assert DaysBefore(y, 2) == 31;
    assert DaysBefore(y, 3) == 31 + DaysInMonth(y, 2);
    assert DaysBefore(y, 4) == DaysBefore(y, 3) + 31;
    assert DaysBefore(y, 5) == DaysBefore(y, 4) + 30;
    assert DaysBefore(y, 6) == DaysBefore(y, 5) + 31;
    assert DaysBefore(y, 7) == DaysBefore(y, 6) + 30;
    assert DaysBefore(y, 8) == DaysBefore(y, 7) + 31;
    assert DaysBefore(y, 9) == DaysBefore(y, 8) + 31;
    assert DaysBefore(y, 10) == DaysBefore(y, 9) + 30;
    assert DaysBefore(y, 11) == DaysBefore(y, 10) + 31;
    assert DaysBefore(y, 12) == DaysBefore(y, 11) + 30;
  }

  /** The leap days of 2000 and 2024, and the missing one of 2100. */
  lemma LeapDays()
    ensures DateOf(951_782_400, 0) == Date(2000, 2, 29) && DateOf(1_709_164_800, 0) == Date(2024, 2, 29)
    ensures DateOf(4_107_456_000, 0) == Date(2100, 2, 28) && DateOf(4_107_542_400, 0) == Date(2100, 3, 1)
  {
    MonthStarts(2000);
    MonthStarts(2024);
    MonthStarts(2100);
    DateIs(951_782_400, 0, Date(2000, 2, 29));
    DateIs(1_709_164_800, 0, Date(2024, 2, 29));
    DateIs(4_107_456_000, 0, Date(2100, 2, 28));
    DateIs(4_107_542_400, 0, Date(2100, 3, 1));
  }

  /** A formatted date, character by character. */
  lemma FormattedDate()
    ensures Format(Date(2024, 3, 5)) == "2024-03-05"
  {
    assert Pad(2, 1) == "2" && Pad(20, 2) == "20" && Pad(202, 3) == "202" && Pad(2024, 4) == "2024";
    assert Pad(0, 1) == "0" && Pad(3, 2) == "03" && Pad(5, 2) == "05";
  }
}
