/** Days since the Unix epoch as Gregorian dates, and the deletion date of a trashed file as text. */
module Calendar {
  import opened Ordering
  import opened Arithmetic
  import opened Decimals

  predicate IsLeap(y: nat) {
    (y % 4 == 0 && y % 100 != 0) || y % 400 == 0
  }

  function YearLength(y: nat): nat {
    if IsLeap(y) then 366 else 365
  }

  /** The month lengths of appendix C and section 5.7 of RFC 3339. */
  function MonthLengths(leap: bool): (r: seq<nat>)
    ensures |r| == 12
  {
    [31, if leap then 29 else 28, 31, 30, 31, 30, 31, 31, 30, 31, 30, 31]
  }

  function MonthLength(y: nat, m: nat): nat
    requires 1 <= m <= 12
  {
    MonthLengths(IsLeap(y))[m - 1]
  }

  /** Long and short months alternate, beginning anew with August; February is short of them by one day or two. */
  lemma MonthLengthsAlternate(y: nat, m: nat)
    requires 1 <= m <= 12
    ensures MonthLength(y, m) == 30 + (m + m / 8) % 2 - (if m != 2 then 0 else if IsLeap(y) then 1 else 2)
  {
  }

  datatype Date = Date(year: nat, month: nat, day: nat)

  predicate IsDate(d: Date) {
    1970 <= d.year && 1 <= d.month <= 12 && 1 <= d.day <= MonthLength(d.year, d.month)
  }

  // ---- The day count -------------------------------------------------------

  /** The days from the start of 1970 to the start of `y`. */
  function DaysBeforeYear(y: nat): nat
    requires 1970 <= y
  {
    if y == 1970 then 0 else DaysBeforeYear(y - 1) + YearLength(y - 1)
  }

  /** The days of `y` before its month `m`; `m` may be 13. */
  function DaysBeforeMonth(leap: bool, m: nat): nat
    requires 1 <= m <= 13
  {
    if m == 1 then 0 else DaysBeforeMonth(leap, m - 1) + MonthLengths(leap)[m - 2]
  }

  function DayNumber(d: Date): nat
    requires IsDate(d)
  {
    DaysBeforeYear(d.year) + DaysBeforeMonth(IsLeap(d.year), d.month) + d.day - 1
  }

  /** The year lengths add up to the closed form of the Gregorian calendar. */
  lemma {:induction false} DaysBeforeYearClosedForm(y: nat)
    requires 1970 <= y
    ensures DaysBeforeYear(y) == 365 * (y - 1970) + (y - 1) / 4 - (y - 1) / 100 + (y - 1) / 400 - 477
  {
    if y > 1970 {
      DaysBeforeYearClosedForm(y - 1);
      LeapCount(y - 1);
    }
  }

  /** The leap rule counts one more exactly in a leap year. */
  lemma LeapCount(y: nat)
    requires 0 < y
    ensures y / 4 - y / 100 + y / 400 ==
            ((y - 1) / 4 - (y - 1) / 100 + (y - 1) / 400) + (if IsLeap(y) then 1 else 0)
  {
    QuotientBy4(y);
    QuotientBy100(y);
    QuotientBy400(y);
  }

  lemma QuotientBy4(y: nat)
    requires 0 < y
    ensures y / 4 == (y - 1) / 4 + (if y % 4 == 0 then 1 else 0)
  {
  }

  lemma QuotientBy100(y: nat)
    requires 0 < y
    ensures y / 100 == (y - 1) / 100 + (if y % 100 == 0 then 1 else 0)
    ensures y % 100 == 0 ==> y % 4 == 0
  {
    QuotientSteps(y, 100);
    MultipleOfMultiple(y, 100, 4, 25);
  }

  lemma QuotientBy400(y: nat)
    requires 0 < y
    ensures y / 400 == (y - 1) / 400 + (if y % 400 == 0 then 1 else 0)
    ensures y % 400 == 0 ==> y % 100 == 0
  {
    QuotientSteps(y, 400);
    MultipleOfMultiple(y, 400, 100, 4);
  }

  // ---- days_to_ymd ---------------------------------------------------------

  /** The year that the `days`-th day from the start of `year` falls in, and its day in that year. */
  function YearOf(days: nat, year: nat): (nat, nat) {
    if days < YearLength(year) then (year, days) else YearOf(days - YearLength(year), year + 1)
  }

  /** The month, from `month` on, that the `days`-th day from its start falls in, and its day in that month. */
  function MonthOf(days: nat, month: nat, leap: bool): (nat, nat)
    requires 1 <= month <= 13
    decreases 13 - month
  {
    if month == 13 || days < MonthLengths(leap)[month - 1] then (month, days)
    else MonthOf(days - MonthLengths(leap)[month - 1], month + 1, leap)
  }

  function DateOf(days: nat): Date {
    var (year, dayOfYear) := YearOf(days, 1970);
    var (month, dayOfMonth) := MonthOf(dayOfYear, 1, IsLeap(year));
    Date(year, month, dayOfMonth + 1)
  }

  method DaysToYmd(total: nat) returns (d: Date)
    ensures d == DateOf(total)
  {
    var days, year := total, 1970;
    while true
      invariant YearOf(days, year) == YearOf(total, 1970)
      decreases days
    {
      var daysInYear := if IsLeap(year) then 366 else 365;
      if days < daysInYear {
        break;
      }
      days := days - daysInYear;
      year := year + 1;
    }
    var leap := IsLeap(year);
    var monthDays := MonthLengths(leap);
    ghost var dayOfYear := days;
    var month := 1;
    for k := 0 to 12
      invariant month == k + 1 && MonthOf(days, month, leap) == MonthOf(dayOfYear, 1, leap)
    {
      if days < monthDays[k] {
        break;
      }
      days := days - monthDays[k];
      month := month + 1;
    }
    d := Date(year, month, days + 1);
  }

  lemma {:induction false} YearOfCounts(days: nat, year: nat)
    requires 1970 <= year
    ensures var (y, rest) := YearOf(days, year);
            year <= y && rest < YearLength(y) && DaysBeforeYear(y) + rest == DaysBeforeYear(year) + days
    decreases days
  {
    if days >= YearLength(year) {
      YearOfCounts(days - YearLength(year), year + 1);
    }
  }

  lemma {:induction false} MonthOfCounts(days: nat, month: nat, leap: bool)
    requires 1 <= month <= 13
    ensures var (m, rest) := MonthOf(days, month, leap);
            && month <= m <= 13 && (m <= 12 ==> rest < MonthLengths(leap)[m - 1])
            && DaysBeforeMonth(leap, m) + rest == DaysBeforeMonth(leap, month) + days
    decreases 13 - month
  {
    if month < 13 && days >= MonthLengths(leap)[month - 1] {
      MonthOfCounts(days - MonthLengths(leap)[month - 1], month + 1, leap);
    }
  }

  lemma MonthsMakeTheYear(leap: bool)
    ensures DaysBeforeMonth(leap, 13) == if leap then 366 else 365
  {
    assert DaysBeforeMonth(leap, 2) == 31;
    assert DaysBeforeMonth(leap, 4) == if leap then 91 else 90;
    assert DaysBeforeMonth(leap, 6) == if leap then 152 else 151;
    assert DaysBeforeMonth(leap, 8) == if leap then 213 else 212;
    assert DaysBeforeMonth(leap, 10) == if leap then 274 else 273;
    assert DaysBeforeMonth(leap, 12) == if leap then 335 else 334;
  }

  /** The conversion yields a date, and counting that date's days gives the input back. */
  lemma DateOfCountsBack(days: nat)
    ensures IsDate(DateOf(days)) && DayNumber(DateOf(days)) == days
  {
    var (year, dayOfYear) := YearOf(days, 1970);
    YearOfCounts(days, 1970);
    DayOfYearFits(dayOfYear, IsLeap(year));
    var (month, rest) := MonthOf(dayOfYear, 1, IsLeap(year));
    assert DateOf(days) == Date(year, month, rest + 1);
  }

  /** A day within a year's length falls in one of its twelve months. */
  lemma DayOfYearFits(dayOfYear: nat, leap: bool)
    requires dayOfYear < if leap then 366 else 365
    ensures var (m, rest) := MonthOf(dayOfYear, 1, leap);
            1 <= m <= 12 && rest < MonthLengths(leap)[m - 1] && DaysBeforeMonth(leap, m) + rest == dayOfYear
  {
    MonthOfCounts(dayOfYear, 1, leap);
    MonthsMakeTheYear(leap);
  }

  // ---- Order ---------------------------------------------------------------

  predicate Earlier(a: Date, b: Date) {
    a.year < b.year || (a.year == b.year && (a.month < b.month || (a.month == b.month && a.day < b.day)))
  }

  lemma {:induction false} LaterYearsCountMore(a: nat, b: nat)
    requires 1970 <= a < b
    ensures DaysBeforeYear(a) + YearLength(a) <= DaysBeforeYear(b)
  {
    if a < b - 1 {
      LaterYearsCountMore(a, b - 1);
    }
  }

  lemma {:induction false} LaterMonthsCountMore(leap: bool, a: nat, b: nat)
    requires 1 <= a < b <= 13
    ensures DaysBeforeMonth(leap, a) + MonthLengths(leap)[a - 1] <= DaysBeforeMonth(leap, b)
  {
    if a < b - 1 {
      LaterMonthsCountMore(leap, a, b - 1);
    }
  }

  /** An earlier date has a smaller day number; so the day number tells dates apart. */
  lemma EarlierCountsLess(a: Date, b: Date)
    requires IsDate(a) && IsDate(b)
    ensures Earlier(a, b) <==> DayNumber(a) < DayNumber(b)
    ensures a == b <==> DayNumber(a) == DayNumber(b)
  {
    if Earlier(a, b) {
      EarlierCountsLessOneWay(a, b);
    } else if Earlier(b, a) {
      EarlierCountsLessOneWay(b, a);
    } else {
      assert a == b;
    }
  }

  lemma EarlierCountsLessOneWay(a: Date, b: Date)
    requires IsDate(a) && IsDate(b) && Earlier(a, b)
    ensures DayNumber(a) < DayNumber(b)
  {
    if a.year < b.year {
      LaterYearsCountMore(a.year, b.year);
      MonthsMakeTheYear(IsLeap(a.year));
      LaterMonthsCountMore(IsLeap(a.year), a.month, 13);
    } else if a.month < b.month {
      LaterMonthsCountMore(IsLeap(a.year), a.month, b.month);
    }
  }

  /** Converting a date's day number gives the date back. */
  lemma DayNumberConvertsBack(d: Date)
    requires IsDate(d)
    ensures DateOf(DayNumber(d)) == d
  {
    DateOfCountsBack(DayNumber(d));
    EarlierCountsLess(DateOf(DayNumber(d)), d);
  }

  /** Later days give later dates. */
  lemma LaterDaysGiveLaterDates(a: nat, b: nat)
    ensures a < b <==> Earlier(DateOf(a), DateOf(b))
  {
    DateOfCountsBack(a);
    DateOfCountsBack(b);
    EarlierCountsLess(DateOf(a), DateOf(b));
  }

  // ---- format_deletion_date ------------------------------------------------

  datatype Moment = Moment(date: Date, hours: nat, minutes: nat, seconds: nat)

  function MomentOf(epochSecs: nat): Moment {
    var timeOfDay := epochSecs % 86400;
    Moment(DateOf(epochSecs / 86400), timeOfDay / 3600, timeOfDay % 3600 / 60, timeOfDay % 60)
  }

  function FormatMoment(m: Moment): string {
    Padded(m.date.year, 4) + "-" + Padded(m.date.month, 2) + "-" + Padded(m.date.day, 2) + "T"
    + Padded(m.hours, 2) + ":" + Padded(m.minutes, 2) + ":" + Padded(m.seconds, 2)
  }

  method FormatDeletionDate(epochSecs: nat) returns (s: string)
    ensures s == FormatMoment(MomentOf(epochSecs))
  {
    var secsPerDay := 86400;
    var days := epochSecs / secsPerDay;
    var timeOfDay := epochSecs % secsPerDay;
    var hours := timeOfDay / 3600;
    var minutes := timeOfDay % 3600 / 60;
    var seconds := timeOfDay % 60;
    var date := DaysToYmd(days);
    s := FormatMoment(Moment(date, hours, minutes, seconds));
  }

  /** The date and the time of day recombine to the seconds they came from. */
  lemma MomentRecombines(epochSecs: nat)
    ensures var m := MomentOf(epochSecs);
            && IsDate(m.date) && m.hours < 24 && m.minutes < 60 && m.seconds < 60
            && 86400 * DayNumber(m.date) + 3600 * m.hours + 60 * m.minutes + m.seconds == epochSecs
  {
    DateOfCountsBack(epochSecs / 86400);
    var t := epochSecs % 86400;
    assert t % 3600 % 60 == t % 60;
  }

  /** The first second of the year 10000, where the printed year outgrows its four digits. */
  const YEAR_10000: nat := 253402300800

  lemma YearHasFourDigits(epochSecs: nat)
    ensures epochSecs < YEAR_10000 <==> MomentOf(epochSecs).date.year < 10000
  {
    var days := epochSecs / 86400;
    var first := Date(10000, 1, 1);
    DaysBeforeYearClosedForm(10000);
    assert DayNumber(first) == 2932897;
    DateOfCountsBack(days);
    EarlierCountsLess(DateOf(days), first);
  }

  /** A formatted moment is its fields at fixed widths. */
  function FixedForm(m: Moment): string {
    FixedWidth(m.date.year, 4) + ("-" + (FixedWidth(m.date.month, 2) + ("-" + (FixedWidth(m.date.day, 2)
    + ("T" + (FixedWidth(m.hours, 2) + (":" + (FixedWidth(m.minutes, 2) + (":" + FixedWidth(m.seconds, 2))))))))))
  }

  ghost predicate FitsFixedForm(m: Moment) {
    m.date.year < 10000 && m.date.month < 100 && m.date.day < 100 && m.hours < 100 && m.minutes < 100 && m.seconds < 100
  }

  lemma TwoAndFourDigits()
    ensures Pow10(2) == 100 && Pow10(4) == 10000
  {
    assert Pow10(1) == 10;
    assert Pow10(3) == 1000;
  }

  lemma FieldsAreFixedWidth(m: Moment)
    requires FitsFixedForm(m)
    ensures Padded(m.date.year, 4) == FixedWidth(m.date.year, 4)
    ensures Padded(m.date.month, 2) == FixedWidth(m.date.month, 2)
    ensures Padded(m.date.day, 2) == FixedWidth(m.date.day, 2) && Padded(m.hours, 2) == FixedWidth(m.hours, 2)
    ensures Padded(m.minutes, 2) == FixedWidth(m.minutes, 2) && Padded(m.seconds, 2) == FixedWidth(m.seconds, 2)
  {
    TwoAndFourDigits();
    PaddedIsFixedWidth(m.date.year, 4);
    PaddedIsFixedWidth(m.date.month, 2);
    PaddedIsFixedWidth(m.date.day, 2);
    PaddedIsFixedWidth(m.hours, 2);
    PaddedIsFixedWidth(m.minutes, 2);
    PaddedIsFixedWidth(m.seconds, 2);
  }

  /** Only the grouping of the concatenations differs. */
  lemma Regroup(y: string, mo: string, d: string, h: string, mi: string, s: string)
    ensures y + "-" + mo + "-" + d + "T" + h + ":" + mi + ":" + s ==
            y + ("-" + (mo + ("-" + (d + ("T" + (h + (":" + (mi + (":" + s)))))))))
  {
  }

  lemma FormatIsFixedForm(m: Moment)
    requires FitsFixedForm(m)
    ensures FormatMoment(m) == FixedForm(m)
  {
    FieldsAreFixedWidth(m);
    Regroup(Padded(m.date.year, 4), Padded(m.date.month, 2), Padded(m.date.day, 2),
            Padded(m.hours, 2), Padded(m.minutes, 2), Padded(m.seconds, 2));
  }

  function ThenCompare(first: Order, second: Order): Order {
    if first == Equal then second else first
  }

  function MomentCmp(a: Moment, b: Moment): Order {
    ThenCompare(IntCmp(a.date.year, b.date.year), ThenCompare(IntCmp(a.date.month, b.date.month),
    ThenCompare(IntCmp(a.date.day, b.date.day), ThenCompare(IntCmp(a.hours, b.hours),
    ThenCompare(IntCmp(a.minutes, b.minutes), IntCmp(a.seconds, b.seconds))))))
  }

  /** A field of one width and a separator in front of two texts decide before the rest. */
  lemma FieldDecides(m: nat, n: nat, w: nat, sep: string, a: string, b: string)
    requires m < Pow10(w) && n < Pow10(w)
    ensures Lex(FixedWidth(m, w) + (sep + a), FixedWidth(n, w) + (sep + b), CharCmp) ==
            ThenCompare(IntCmp(m, n), Lex(a, b, CharCmp))
  {
    FixedWidthOrder(m, n, w);
    LexConcat(FixedWidth(m, w), sep + a, FixedWidth(n, w), sep + b);
    LexConcat(sep, a, sep, b);
    LexSelf(sep);
  }

  lemma {:induction false} LexSelf(s: string)
    ensures Lex(s, s, CharCmp) == Equal
  {
    if s != [] {
      LexSelf(s[1..]);
    }
  }

  lemma FixedFormOrder(a: Moment, b: Moment)
    requires FitsFixedForm(a) && FitsFixedForm(b)
    ensures Lex(FixedForm(a), FixedForm(b), CharCmp) == MomentCmp(a, b)
  {
    TwoAndFourDigits();
    FixedWidthOrder(a.seconds, b.seconds, 2);
    var a5, b5 := FixedWidth(a.seconds, 2), FixedWidth(b.seconds, 2);
    FieldDecides(a.minutes, b.minutes, 2, ":", a5, b5);
    var a4, b4 := FixedWidth(a.minutes, 2) + (":" + a5), FixedWidth(b.minutes, 2) + (":" + b5);
    FieldDecides(a.hours, b.hours, 2, ":", a4, b4);
    var a3, b3 := FixedWidth(a.hours, 2) + (":" + a4), FixedWidth(b.hours, 2) + (":" + b4);
    FieldDecides(a.date.day, b.date.day, 2, "T", a3, b3);
    var a2, b2 := FixedWidth(a.date.day, 2) + ("T" + a3), FixedWidth(b.date.day, 2) + ("T" + b3);
    FieldDecides(a.date.month, b.date.month, 2, "-", a2, b2);
    var a1, b1 := FixedWidth(a.date.month, 2) + ("-" + a2), FixedWidth(b.date.month, 2) + ("-" + b2);
    FieldDecides(a.date.year, b.date.year, 4, "-", a1, b1);
  }

  lemma MomentCmpIsTimeOrder(s: nat, t: nat)
    ensures MomentCmp(MomentOf(s), MomentOf(t)) == IntCmp(s, t)
  {
    var a, b := MomentOf(s), MomentOf(t);
    MomentRecombines(s);
    MomentRecombines(t);
    EarlierCountsLess(a.date, b.date);
    EarlierCountsLess(b.date, a.date);
    ClockOrder(DayNumber(a.date), a.hours, a.minutes, a.seconds, DayNumber(b.date), b.hours, b.minutes, b.seconds);
  }

  /** Within their ranges the fields of a clock compare like the time they make. */
  lemma ClockOrder(d: nat, h: nat, m: nat, s: nat, d': nat, h': nat, m': nat, s': nat)
    requires h < 24 && m < 60 && s < 60 && h' < 24 && m' < 60 && s' < 60
    ensures ThenCompare(IntCmp(d, d'), ThenCompare(IntCmp(h, h'), ThenCompare(IntCmp(m, m'), IntCmp(s, s')))) ==
            IntCmp(86400 * d + 3600 * h + 60 * m + s, 86400 * d' + 3600 * h' + 60 * m' + s')
  {
  }

  lemma FormatOrder(a: Moment, b: Moment)
    requires FitsFixedForm(a) && FitsFixedForm(b)
    ensures Lex(FormatMoment(a), FormatMoment(b), CharCmp) == MomentCmp(a, b)
  {
    FormatIsFixedForm(a);
    FormatIsFixedForm(b);
    FixedFormOrder(a, b);
  }

  lemma EarlyMomentsFit(epochSecs: nat)
    requires epochSecs < YEAR_10000
    ensures FitsFixedForm(MomentOf(epochSecs))
  {
    YearHasFourDigits(epochSecs);
    MomentRecombines(epochSecs);
  }

  /** The characters of `s` from `i` on are the number `n` at the width `w`. */
  ghost predicate ReadsAt(s: string, i: nat, w: nat, n: nat) {
    i + w <= |s| && AllDigits(s[i..i + w]) && Decimal(s[i..i + w]) == n
  }

  /** The layout of a fixed form, cut before each of its fields. */
  lemma FieldsOfText(y: string, mo: string, d: string, h: string, mi: string, s: string)
    requires |y| == 4 && |mo| == |d| == |h| == |mi| == |s| == 2
    ensures var text := y + ("-" + (mo + ("-" + (d + ("T" + (h + (":" + (mi + (":" + s)))))))));
            && |text| == 19 && text[4] == text[7] == '-' && text[10] == 'T' && text[13] == text[16] == ':'
            && text[..4] == y && text[5..7] == mo && text[8..10] == d
            && text[11..13] == h && text[14..16] == mi && text[17..19] == s
  {
  }

  /** Up to the year 9999 the text of a moment has the layout of RFC 3339 and reads back field by field. */
  lemma FormatReadsBack(epochSecs: nat)
    requires epochSecs < YEAR_10000
    ensures var m, text := MomentOf(epochSecs), FormatMoment(MomentOf(epochSecs));
            && |text| == 19 && text[4] == text[7] == '-' && text[10] == 'T' && text[13] == text[16] == ':'
            && ReadsAt(text, 0, 4, m.date.year) && ReadsAt(text, 5, 2, m.date.month) && ReadsAt(text, 8, 2, m.date.day)
            && ReadsAt(text, 11, 2, m.hours) && ReadsAt(text, 14, 2, m.minutes) && ReadsAt(text, 17, 2, m.seconds)
  {
    var m := MomentOf(epochSecs);
    EarlyMomentsFit(epochSecs);
    FormatIsFixedForm(m);
    TwoAndFourDigits();
    FixedWidthReads(m.date.year, 4);
    FixedWidthReads(m.date.month, 2);
    FixedWidthReads(m.date.day, 2);
    FixedWidthReads(m.hours, 2);
    FixedWidthReads(m.minutes, 2);
    FixedWidthReads(m.seconds, 2);
    FieldsOfText(FixedWidth(m.date.year, 4), FixedWidth(m.date.month, 2), FixedWidth(m.date.day, 2),
                 FixedWidth(m.hours, 2), FixedWidth(m.minutes, 2), FixedWidth(m.seconds, 2));
  }

  /** Up to the year 9999 deletion dates compare as text the way their times compare. */
  lemma TextOrderIsTimeOrder(s: nat, t: nat)
    requires s < YEAR_10000 && t < YEAR_10000
    ensures Lex(FormatMoment(MomentOf(s)), FormatMoment(MomentOf(t)), CharCmp) == IntCmp(s, t)
  {
    EarlyMomentsFit(s);
    EarlyMomentsFit(t);
    FormatOrder(MomentOf(s), MomentOf(t));
    MomentCmpIsTimeOrder(s, t);
  }

  /** The days of a year are those between its start and the next year's. */
  lemma DaysOfYear(days: nat, y: nat)
    requires 1970 <= y
    ensures DateOf(days).year == y <==> DaysBeforeYear(y) <= days < DaysBeforeYear(y + 1)
  {
    DateOfCountsBack(days);
    EarlierCountsLess(DateOf(days), Date(y, 1, 1));
    EarlierCountsLess(DateOf(days), Date(y + 1, 1, 1));
    assert DayNumber(Date(y, 1, 1)) == DaysBeforeYear(y) && DayNumber(Date(y + 1, 1, 1)) == DaysBeforeYear(y + 1);
  }

  lemma AroundTheYear10000()
    ensures MomentOf(YEAR_10000).date.year == 10000 && MomentOf(YEAR_10000 - 1).date.year == 9999
  {
    DaysBeforeYearClosedForm(9999);
    DaysBeforeYearClosedForm(10000);
    DaysBeforeYearClosedForm(10001);
    DaysOfYear(YEAR_10000 / 86400, 10000);
    DaysOfYear((YEAR_10000 - 1) / 86400, 9999);
  }

  lemma PrintedYears()
    ensures Padded(10000, 4)[0] == '1' && Padded(9999, 4)[0] == '9'
  {
    assert Print(1) == "1";
    assert Print(10) == Print(1) + "0";
    assert Print(100) == Print(10) + "0";
    assert Print(1000) == Print(100) + "0";
    assert Print(10000) == Print(1000) + "0";
    assert Print(9) == "9";
    assert Print(99) == Print(9) + "9";
    assert Print(999) == Print(99) + "9";
    assert Print(9999) == Print(999) + "9";
  }

  lemma FormatStartsWithYear(m: Moment)
    ensures Padded(m.date.year, 4) != [] && FormatMoment(m) != [] && FormatMoment(m)[0] == Padded(m.date.year, 4)[0]
  {
  }

  /** The bound is exact: the first second of the year 10000 reads earlier than the last one of 9999. */
  lemma TextOrderBreaks()
    ensures Lex(FormatMoment(MomentOf(YEAR_10000)), FormatMoment(MomentOf(YEAR_10000 - 1)), CharCmp) == Less
  {
    AroundTheYear10000();
    PrintedYears();
    FormatStartsWithYear(MomentOf(YEAR_10000));
    FormatStartsWithYear(MomentOf(YEAR_10000 - 1));
    FirstCharDecides(FormatMoment(MomentOf(YEAR_10000)), FormatMoment(MomentOf(YEAR_10000 - 1)));
  }

  /** The texts up to a time sort as their times do. */
  ghost predicate TextsSortByTime(bound: nat) {
    forall s: nat, t: nat :: s < bound && t < bound ==> TextsAgree(s, t)
  }

  ghost predicate TextsAgree(s: nat, t: nat) {
    Lex(FormatMoment(MomentOf(s)), FormatMoment(MomentOf(t)), CharCmp) == IntCmp(s, t)
  }

  /** Sorting deletion dates as text sorts them by time exactly up to the end of the year 9999. */
  lemma TextsSortByTimeIff(bound: nat)
    ensures TextsSortByTime(bound) <==> bound <= YEAR_10000
  {
    if bound <= YEAR_10000 {
      forall s: nat, t: nat | s < bound && t < bound
        ensures TextsAgree(s, t)
      {
        TextOrderIsTimeOrder(s, t);
      }
    } else {
      TextOrderBreaks();
      assert !TextsAgree(YEAR_10000, YEAR_10000 - 1);
    }
  }

  lemma FirstCharDecides(a: string, b: string)
    requires a != [] && b != [] && a[0] < b[0]
    ensures Lex(a, b, CharCmp) == Less
  {
  }
}
