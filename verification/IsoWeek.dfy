/** Week numbers of date.h: the formatter's %G %V, %U and %W and the parser's formulas that
    rebuild the date from them. Week 1 of an ISO year starts on the Monday after the last
    Thursday of the December before (ISO 8601:2004, section 4.1.4, states the same as the
    week with the year's first Thursday). */
module IsoWeek {
  import opened Calendar
  import opened Weekdays
  import opened NthWeekday

  /** duration_cast<weeks>, truncating toward zero */
  function Weeks(days: int): int {
    TruncDiv(days, 7)
  }

  /** local_days((y-years{1})/December/Thursday[last]) + (Monday-Thursday) */
  function IsoStart(y: int): int {
    LastToDays(y - 1, 12, THURSDAY) + Minus(MONDAY, THURSDAY)
  }

  /** %G */
  function FormatG(ld: int): int {
    StepBack(ld, FromDays(ld + 3).y)
  }

  function StepBack(ld: int, y: int): int {
    if ld < IsoStart(y) then y - 1 else y
  }

  /** %V */
  function FormatV(ld: int): int {
    WeekOf(ld, FromDays(ld + 3).y)
  }

  function WeekOf(ld: int, y: int): int {
    var st := IsoStart(y);
    var st' := if ld < st then IsoStart(y - 1) else st;
    Weeks(ld - st') + 1
  }

  /** from_stream with %G, %V and a weekday given */
  function ParseGV(g: int, v: int, wd: int): Date {
    FromDays(IsoDay(g, v, wd))
  }

  function IsoDay(g: int, v: int, wd: int): int {
    IsoStart(g) + 7 * (v - 1) + Minus(MakeWeekday(wd), MONDAY)
  }

  /** local_days(first[1]/January/y) */
  function WeekOne(y: int, first: int): int {
    NthToDays(MonthWeekday(y, 1, first, 1))
  }

  /** %U with first == 0 (Sunday), %W with first == MONDAY */
  function FormatWeek(t: Date, first: int): int {
    WeekSince(ToDays(t), WeekOne(t.y, first))
  }

  function WeekSince(ld: int, st: int): int {
    if ld < st then 0 else Weeks(ld - st) + 1
  }

  /** from_stream with %Y, %U or %W, and a weekday given */
  function ParseWeek(y: int, n: int, wd: int, first: int): Date {
    FromDays(WeekDay(y, n, wd, first))
  }

  function WeekDay(y: int, n: int, wd: int, first: int): int {
    WeekOne(y, first) + 7 * (n - 1) + Minus(MakeWeekday(wd), first)
  }

  /** Day numbers whose neighbouring years still fit the source's int. */
  predicate Reach(z: int) {
    -0x7fff_0000 <= z <= 0x7fff_0000
  }

  // ---- years --------------------------------------------------------------------------

  function NewYear(y: int): int {
    FirstOf(y, 1)
  }

  lemma NewYearForm(y: int)
    ensures NewYear(y) == MarchFirst(y - 1) + 306 && FirstOf(y, 12) == MarchFirst(y) + 275
  {
    ToDaysForm(Date(y, 1, 1));
    ToDaysForm(Date(y, 12, 1));
    assert MonthStart(10) == 306 && MonthStart(9) == 275;
  }

  lemma YearLength(y: int)
    ensures NewYear(y) + 365 <= NewYear(y + 1) <= NewYear(y) + 366
    ensures FirstOf(y, 12) + 31 == NewYear(y + 1)
  {
    NewYearForm(y);
    NewYearForm(y + 1);
    MarchYearSpan(y - 1);
  }

  lemma YearOfDay(z: int, t: Date) returns (ny: int)
    requires t == FromDays(z)
    ensures ny == NewYear(t.y) && InYearOf(z, t.y, ny)
  {
    ToFromDays(z);
    ny := InYearBy(t);
  }

  lemma InYearBy(t: Date) returns (ny: int)
    requires t.Valid()
    ensures ny == NewYear(t.y) && InYearOf(ToDays(t), t.y, ny)
  {
    InYear(t);
    YearLength(t.y);
    ny := NewYear(t.y);
  }

  /** Day z lies in year y, whose first day is ny. */
  ghost predicate InYearOf(z: int, y: int, ny: int) {
    ny <= z <= ny + 365 && z < NewYear(y + 1)
  }

  lemma InYear(t: Date)
    requires t.Valid()
    ensures NewYear(t.y) <= ToDays(t) < NewYear(t.y + 1)
  {
    ToDaysMonotone(t, Date(t.y, 1, 1));
    ToDaysMonotone(t, Date(t.y + 1, 1, 1));
  }

  lemma OnlyYear(z: int, y: int)
    requires NewYear(y) <= z < NewYear(y + 1)
    ensures FromDays(z).y == y
  {
    ToFromDays(z);
    YearBetween(FromDays(z), y);
  }

  lemma YearBetween(t: Date, y: int)
    requires t.Valid() && NewYear(y) <= ToDays(t) < NewYear(y + 1)
    ensures t.y == y
  {
    ToDaysMonotone(t, Date(y, 1, 1));
    ToDaysMonotone(t, Date(y + 1, 1, 1));
  }

  // ---- ISO weeks ----------------------------------------------------------------------

  lemma MondayAfter(z: int)
    requires Int32(z) && Int32(z + 4) && WeekdayFromDays(z) == THURSDAY
    ensures Minus(MONDAY, THURSDAY) == 4 && WeekdayFromDays(z + 4) == MONDAY
  {
    WeekdayCountsInSevens(z);
    DivUnique(z + 8, 7, (z + 4) / 7 + 1, 1);
    WeekdayCountsInSevens(z + 4);
    MinusForm(MONDAY, THURSDAY);
  }

  /** An ISO year starts on a Monday within three days of January 1st. */
  lemma IsoStartNear(y: int, ny: int)
    requires ny == NewYear(y) && Reach(ny)
    ensures ny - 3 <= IsoStart(y) <= ny + 3
    ensures WeekdayFromDays(IsoStart(y)) == MONDAY
  {
    YearLength(y - 1);
    var d := LastToDaysForm(y - 1, 12, THURSDAY);
    assert LastDay(y - 1, 12) == 31;
    MondayAfter(LastToDays(y - 1, 12, THURSDAY));
  }

  /** Days of one weekday are whole weeks apart. */
  lemma WholeWeeks(a: int, b: int)
    requires Int32(a) && Int32(b) && WeekdayFromDays(a) == WeekdayFromDays(b)
    ensures (b - a) % 7 == 0
  {
    MinusOfDays(b, a);
    MinusForm(WeekdayFromDays(b), WeekdayFromDays(a));
  }

  /** The ISO year g, its first day and the next one's surround the day. */
  predicate InIsoYear(ld: int, g: int, st: int, next: int) {
    && st <= ld < next <= st + 377
    && Int32(st) && Int32(ld) && Int32(next)
    && WeekdayFromDays(st) == MONDAY && WeekdayFromDays(next) == MONDAY
  }

  /** Everything the formatter needs to know about ISO year g, in plain numbers: the day,
      the first days of calendar year g and of ISO years g and g + 1. */
  predicate WeekData(ld: int, g: int, first: int, st: int, next: int) {
    InIsoYear(ld, g, st, next) && first - 3 <= st <= first + 3 && first + 362 <= next <= first + 369
  }

  lemma IsoYearData(ld: int, g: int, first: int) returns (st: int, next: int)
    requires first == NewYear(g) && Reach(first - 400) && Reach(first + 400) && Int32(ld)
    ensures st == IsoStart(g) && next == IsoStart(g + 1)
    ensures first - 3 <= st <= first + 3 && first + 362 <= next <= first + 369
    ensures st <= ld < next ==> WeekData(ld, g, first, st, next)
  {
    YearLength(g);
    IsoStartNear(g, first);
    IsoStartNear(g + 1, NewYear(g + 1));
    st, next := IsoStart(g), IsoStart(g + 1);
  }

  lemma YearBefore(ld: int, y: int, ny: int, s: int) returns (first: int, st: int)
    requires ny == NewYear(y) && s == IsoStart(y) && ny - 3 <= ld < s && Reach(ld - 1000) && Reach(ld + 1000)
    requires s <= ny + 3
    ensures first == NewYear(y - 1) && st == IsoStart(y - 1) && WeekData(ld, y - 1, first, st, s)
  {
    YearLength(y - 1);
    first := NewYear(y - 1);
    var next;
    st, next := IsoYearData(ld, y - 1, first);
  }

  lemma StepBackForm(ld: int, y: int, ny: int) returns (g: int, first: int, st: int, next: int)
    requires ny == NewYear(y) && InYearOf(ld + 3, y, ny) && Reach(ld - 1000) && Reach(ld + 1000)
    ensures g == StepBack(ld, y) && first == NewYear(g) && st == IsoStart(g) && next == IsoStart(g + 1)
    ensures WeekOf(ld, y) == Weeks(ld - st) + 1 && WeekData(ld, g, first, st, next)
  {
    g, first := y, ny;
    st, next := IsoYearData(ld, g, first);
    if ld < st {
      g, next := y - 1, st;
      first, st := YearBefore(ld, y, ny, next);
    } else {
      NextNotBefore(y, next);
    }
  }

  lemma NextNotBefore(y: int, next: int)
    requires next == IsoStart(y + 1) && Reach(NewYear(y + 1))
    ensures NewYear(y + 1) - 3 <= next
  {
    IsoStartNear(y + 1, NewYear(y + 1));
  }

  lemma NextWithin(g: int, first: int, next: int)
    requires first == NewYear(g) && next == IsoStart(g + 1) && Reach(first - 400) && Reach(first + 400)
    ensures next <= NewYear(g + 1) + 3
  {
    YearLength(g);
    IsoStartNear(g + 1, NewYear(g + 1));
  }

  /** What the formatter computes: the ISO year whose weeks contain the day, and the number
      of the week. */
  lemma IsoWeekForm(ld: int) returns (g: int, first: int, st: int, next: int)
    requires Reach(ld - 1000) && Reach(ld + 1000)
    ensures g == FormatG(ld) && first == NewYear(g) && st == IsoStart(g) && FormatV(ld) == Weeks(ld - st) + 1
    ensures next == IsoStart(g + 1) && WeekData(ld, g, first, st, next)
  {
    var t := FromDays(ld + 3);
    var ny := YearOfDay(ld + 3, t);
    g, first, st, next := StepBackForm(ld, t.y, ny);
  }

  lemma WeekArithmetic(ld: int, g: int, st: int, next: int)
    requires InIsoYear(ld, g, st, next)
    ensures 1 <= Weeks(ld - st) + 1 <= 53
    ensures ld == st + 7 * Weeks(ld - st) + Minus(WeekdayFromDays(ld), MONDAY)
    ensures st + 7 * Weeks(ld - st) + 7 <= next
  {
    WholeWeeks(st, next);
    MinusOfDays(ld, st);
  }

  /** ISO week dates round-trip: the week is in 1..53, and the parser rebuilds the date from
      the year, week and weekday the formatter writes. */
  lemma IsoRoundTrip(t: Date)
    requires t.Valid() && Reach(ToDays(t) - 1000) && Reach(ToDays(t) + 1000)
    ensures var ld := ToDays(t);
            && 1 <= FormatV(ld) <= 53
            && ParseGV(FormatG(ld), FormatV(ld), WeekdayFromDays(ld)) == t
  {
    IsoRebuild(ToDays(t));
    FromToDays(t);
  }

  lemma IsoRebuild(ld: int)
    requires Reach(ld - 1000) && Reach(ld + 1000)
    ensures 1 <= FormatV(ld) <= 53
    ensures IsoDay(FormatG(ld), FormatV(ld), WeekdayFromDays(ld)) == ld
  {
    var g, _, st, next := IsoWeekForm(ld);
    WeekArithmetic(ld, g, st, next);
    WeekdayBound(ld);
  }

  lemma WeekdayBound(z: int)
    requires Int32(z)
    ensures MakeWeekday(WeekdayFromDays(z)) == WeekdayFromDays(z)
  {
    WeekdayCountsInSevens(z);
  }

  /** The Thursday of the week, Monday to Sunday, that contains the day. */
  function ThursdayOfWeek(ld: int): int {
    ld - Minus(WeekdayFromDays(ld), MONDAY) + 3
  }

  /** The standard's definition: the ISO year is the calendar year of the week's Thursday,
      and the week number counts that year's Thursdays. */
  lemma IsoMatchesStandard(ld: int)
    requires Reach(ld - 1000) && Reach(ld + 1000)
    ensures FormatG(ld) == FromDays(ThursdayOfWeek(ld)).y
    ensures FormatV(ld) == (ThursdayOfWeek(ld) - NewYear(FormatG(ld))) / 7 + 1
  {
    var g, first, w, next, thursday := ThursdayForm(ld);
    ThursdayOf(g, first, w, next, thursday);
  }

  lemma ThursdayForm(ld: int) returns (g: int, first: int, w: int, next: int, thursday: int)
    requires Reach(ld - 1000) && Reach(ld + 1000)
    ensures g == FormatG(ld) && first == NewYear(g) && FormatV(ld) == w + 1 && thursday == ThursdayOfWeek(ld)
    ensures w >= 0 && first + 7 * w <= thursday <= first + 7 * w + 6
    ensures thursday + 4 <= next && next <= NewYear(g + 1) + 3
  {
    var st;
    g, first, st, next := IsoWeekForm(ld);
    NextWithin(g, first, next);
    WeekArithmetic(ld, g, st, next);
    w, thursday := Weeks(ld - st), ThursdayOfWeek(ld);
  }

  lemma ThursdayOf(g: int, first: int, w: int, next: int, thursday: int)
    requires first == NewYear(g) && w >= 0 && first + 7 * w <= thursday <= first + 7 * w + 6
    requires thursday + 4 <= next && next <= NewYear(g + 1) + 3
    ensures FromDays(thursday).y == g && (thursday - first) / 7 == w
  {
    OnlyYear(thursday, g);
    DivUnique(thursday - first, 7, w, thursday - first - 7 * w);
  }

  // ---- weeks that count from the first Sunday or Monday ------------------------------------

  lemma WeekOneForm(y: int, first: int)
    requires 0 <= first <= 6 && Reach(NewYear(y))
    ensures NewYear(y) <= WeekOne(y, first) <= NewYear(y) + 6
    ensures WeekdayFromDays(WeekOne(y, first)) == first
  {
    ForwardBound(NewYear(y), first);
    ForwardLands(NewYear(y), first, 0);
  }

  lemma ForwardBound(z: int, wd: int)
    ensures 0 <= Minus(wd, WeekdayFromDays(z)) <= 6
  {
    MinusForm(wd, WeekdayFromDays(z));
  }

  /** The date survives the trip through (year, week, weekday), week 00 included, whatever
      weekday weeks start on. */
  lemma WeekRoundTrip(t: Date, first: int)
    requires t.Valid() && 0 <= first <= 6 && Reach(ToDays(t) - 1000) && Reach(ToDays(t) + 1000)
    ensures 0 <= FormatWeek(t, first) <= 53
    ensures ParseWeek(t.y, FormatWeek(t, first), WeekdayFromDays(ToDays(t)), first) == t
    ensures FormatWeek(t, first) == 0 <==> ToDays(t) < WeekOne(t.y, first)
  {
    InYear(t);
    YearLength(t.y);
    WeekRebuildOf(t.y, ToDays(t), first, NewYear(t.y));
    FromToDays(t);
  }

  lemma WeekRebuildOf(y: int, ld: int, first: int, ny: int)
    requires ny == NewYear(y) && ny <= ld <= ny + 365
    requires 0 <= first <= 6 && Reach(ld - 1000) && Reach(ld + 1000)
    ensures var n := WeekSince(ld, WeekOne(y, first));
            && 0 <= n <= 53 && (n == 0 <==> ld < WeekOne(y, first))
            && WeekDay(y, n, WeekdayFromDays(ld), first) == ld
  {
    WeekOneForm(y, first);
    WeekdayBound(ld);
    WeekRebuild(ld, WeekOne(y, first), first, ny);
  }

  lemma WeekRebuild(ld: int, st: int, first: int, ny: int)
    requires Int32(ld) && Int32(st) && Int32(ny) && WeekdayFromDays(st) == first
    requires ny <= ld <= ny + 365 && ny <= st <= ny + 6
    ensures var n := WeekSince(ld, st);
            && 0 <= n <= 53 && (n == 0 <==> ld < st)
            && ld == st + 7 * (n - 1) + Minus(WeekdayFromDays(ld), first)
  {
    MinusOfDays(ld, st);
    if ld < st {
      DivUnique(ld - st, 7, -1, ld - st + 7);
    }
  }
}
