/** Dates named by the n-th or the last weekday of a month (date.h). */
module NthWeekday {
  import opened Calendar
  import opened Weekdays

  /** `year_month_weekday` */
  datatype MonthWeekday = MonthWeekday(y: int, m: int, wd: int, index: nat)

  /** sys_days(y/m/1) */
  function FirstOf(y: int, m: int): int {
    ToDays(Date(y, m, 1))
  }

  /** year_month_weekday::ok, for a year that is ok */
  predicate NthOk(x: MonthWeekday) {
    if !(1 <= x.m <= 12) || !(0 <= x.wd <= 6) || x.index < 1 then false
    else if x.index <= 4 then true
    else
      var d2 := Minus(x.wd, WeekdayFromDays(FirstOf(x.y, x.m))) + (x.index - 1) * 7 + 1;
      d2 <= LastDay(x.y, x.m)
  }

  /** year_month_weekday::to_days */
  function NthToDays(x: MonthWeekday): int {
    var d := FirstOf(x.y, x.m);
    d + Minus(x.wd, WeekdayFromDays(d)) + (x.index - 1) * 7
  }

  /** year_month_weekday::from_days */
  function NthFromDays(z: int): MonthWeekday
    ensures NthFromDays(z).index >= 1
  {
    var t := FromDays(z);
    ToFromDays(z);
    MonthWeekday(t.y, t.m, WeekdayFromDays(z), (t.d - 1) / 7 + 1)
  }

  /** year_month_weekday_last::to_days */
  function LastToDays(y: int, m: int, wd: int): int {
    var d := ToDays(Date(y, m, LastDay(y, m)));
    d - Minus(WeekdayFromDays(d), wd)
  }

  // ---- days within a month ------------------------------------------------------------

  lemma DayInMonth(y: int, m: int, d: int)
    ensures ToDays(Date(y, m, d)) == FirstOf(y, m) + d - 1
  {
  }

  lemma MonthLengthBounds(y: int, m: int)
    ensures 28 <= LastDay(y, m) <= 31
  {
  }

  lemma InMonth(y: int, m: int, d: int, z: int)
    requires 1 <= m <= 12 && 1 <= d <= LastDay(y, m) && z == FirstOf(y, m) + d - 1
    ensures FromDays(z) == Date(y, m, d)
  {
    DayInMonth(y, m, d);
    DateOfCount(Date(y, m, d), z);
  }

  /** A day number falls into a month exactly when it lies within the month's length of the
      month's first day. */
  lemma DateInMonth(y: int, m: int, d: int, z: int, t: Date)
    requires 1 <= m <= 12 && z == FirstOf(y, m) + d - 1 && t == FromDays(z)
    ensures t.y == y && t.m == m <==> 1 <= d <= LastDay(y, m)
    ensures 1 <= d <= LastDay(y, m) ==> t == Date(y, m, d)
  {
    if 1 <= d <= LastDay(y, m) {
      InMonth(y, m, d, z);
    } else if t.y == y && t.m == m {
      NotInMonth(y, m, z, t);
    }
  }

  lemma NotInMonth(y: int, m: int, z: int, t: Date)
    requires t == FromDays(z) && t.y == y && t.m == m
    ensures FirstOf(y, m) <= z < FirstOf(y, m) + LastDay(y, m)
  {
    ToFromDays(z);
    DayInMonth(y, m, t.d);
  }

  // ---- the n-th weekday ---------------------------------------------------------------

  /** The day of the month, possibly out of range, that x names. */
  function NthDay(x: MonthWeekday): int {
    Minus(x.wd, WeekdayFromDays(FirstOf(x.y, x.m))) + (x.index - 1) * 7 + 1
  }

  lemma NthDayForm(x: MonthWeekday)
    requires 0 <= x.wd <= 6 && Int32(FirstOf(x.y, x.m)) && Int32(NthToDays(x))
    ensures NthToDays(x) == FirstOf(x.y, x.m) + NthDay(x) - 1
    ensures 0 <= NthDay(x) - 1 - (x.index - 1) * 7 <= 6
    ensures WeekdayFromDays(NthToDays(x)) == x.wd
  {
    ForwardLands(FirstOf(x.y, x.m), x.wd, x.index - 1);
  }

  /** An n-th-weekday date is ok exactly when it survives the trip through the day count; then
      its month, weekday and index are in range. */
  lemma NthOkIffRoundTrip(x: MonthWeekday)
    requires Int32(FirstOf(x.y, x.m)) && Int32(NthToDays(x))
    ensures NthOk(x) <==> NthFromDays(NthToDays(x)) == x
    ensures NthOk(x) ==> 1 <= x.m <= 12 && 0 <= x.wd <= 6 && 1 <= x.index <= 5
  {
    MonthLengthBounds(x.y, x.m);
    if 1 <= x.m <= 12 && 0 <= x.wd <= 6 {
      NthDayForm(x);
      NthRoundTrip(x, NthDay(x), NthToDays(x), FromDays(NthToDays(x)));
    } else {
      NthFromDaysRanges(NthToDays(x));
    }
  }

  lemma NthFromDaysRanges(z: int)
    requires Int32(z)
    ensures 1 <= NthFromDays(z).m <= 12 && 0 <= NthFromDays(z).wd <= 6
  {
    ToFromDays(z);
    WeekdayCountsInSevens(z);
  }

  lemma NthRoundTrip(x: MonthWeekday, k: int, z: int, t: Date)
    requires 1 <= x.m <= 12 && z == FirstOf(x.y, x.m) + k - 1 && t == FromDays(z)
    requires 0 <= k - 1 - (x.index - 1) * 7 <= 6
    ensures x.index >= 1 && k <= LastDay(x.y, x.m) <==> t.y == x.y && t.m == x.m && (t.d - 1) / 7 + 1 == x.index
  {
    DateInMonth(x.y, x.m, k, z, t);
    MonthLengthBounds(x.y, x.m);
  }

  /** from_days always yields an ok value that counts back to the same day. */
  lemma NthFromDaysOk(z: int)
    requires Int32(z) && Int32(FirstOf(FromDays(z).y, FromDays(z).m))
    ensures NthOk(NthFromDays(z)) && NthToDays(NthFromDays(z)) == z
  {
    var t := FromDays(z);
    ToFromDays(z);
    DayInMonth(t.y, t.m, t.d);
    NthOfValid(t, FirstOf(t.y, t.m), z);
  }

  lemma NthOfValid(t: Date, first: int, z: int)
    requires t.Valid() && first == FirstOf(t.y, t.m) && z == first + t.d - 1 && Int32(z) && Int32(first)
    ensures var x := MonthWeekday(t.y, t.m, WeekdayFromDays(z), (t.d - 1) / 7 + 1);
            NthOk(x) && NthToDays(x) == z
  {
    MinusOfDays(z, first);
    WeekdayCountsInSevens(z);
  }

  // ---- the last weekday ---------------------------------------------------------------

  lemma LastToDaysForm(y: int, m: int, wd: int) returns (d: int)
    requires 0 <= wd <= 6 && Int32(FirstOf(y, m)) && Int32(FirstOf(y, m) + 30)
    ensures LastDay(y, m) - 6 <= d <= LastDay(y, m) && LastToDays(y, m, wd) == FirstOf(y, m) + d - 1
    ensures WeekdayFromDays(LastToDays(y, m, wd)) == wd
  {
    MonthLengthBounds(y, m);
    DayInMonth(y, m, LastDay(y, m));
    var z := FirstOf(y, m) + LastDay(y, m) - 1;
    BackwardLands(z, wd);
    d := LastDay(y, m) - Minus(WeekdayFromDays(z), wd);
  }

  /** The last-weekday form lands in its month, on its weekday, within the final seven days. */
  lemma LastWeekdayLands(y: int, m: int, wd: int)
    requires 1 <= m <= 12 && 0 <= wd <= 6
    requires Int32(FirstOf(y, m)) && Int32(FirstOf(y, m) + 30)
    ensures WeekdayFromDays(LastToDays(y, m, wd)) == wd
    ensures var t := FromDays(LastToDays(y, m, wd));
            t.y == y && t.m == m && LastDay(y, m) - 6 <= t.d <= LastDay(y, m)
  {
    var d := LastToDaysForm(y, m, wd);
    MonthLengthBounds(y, m);
    InMonth(y, m, d, LastToDays(y, m, wd));
  }
}
