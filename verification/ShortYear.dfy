/** The 16-bit year of date.h: `year` stores a short, and only its least value is not ok. */
module ShortYear {
  import opened Calendar

  /** static_cast<short> */
  function Narrow(y: int): int {
    (y + 32768) % 65536 - 32768
  }

  predicate YearOk(y: int) {
    y != -32768
  }

  /** year_month_day::ok, for a date whose year is a short */
  predicate Ok(t: Date) {
    YearOk(t.y) && t.Valid()
  }

  predicate IsShort(t: Date) {
    -32768 <= t.y <= 32767
  }

  /** year_month_day::from_days with the year narrowed by its constructor. */
  function FromDaysShort(days: int): (t: Date)
    ensures IsShort(t)
  {
    var t := FromDays(days);
    t.(y := Narrow(t.y))
  }

  const FIRST_OK: Date := Date(-32767, 1, 1)
  const LAST_OK: Date := Date(32767, 12, 31)
  const FIRST_DAY: int := -12687428
  const LAST_DAY: int := 11248737

  lemma OkDayRange()
    ensures ToDays(FIRST_OK) == FIRST_DAY && ToDays(LAST_OK) == LAST_DAY
    ensures FIRST_OK.Valid() && LAST_OK.Valid()
  {
    LeapRule(-32767);
  }

  lemma NotBeforeFirst(t: Date)
    requires t.Valid()
    ensures FIRST_DAY <= ToDays(t) <==> -32767 <= t.y
  {
    OkDayRange();
    ToDaysMonotone(t, FIRST_OK);
  }

  lemma NotAfterLast(t: Date)
    requires t.Valid()
    ensures ToDays(t) <= LAST_DAY <==> t.y <= 32767
  {
    OkDayRange();
    ToDaysMonotone(LAST_OK, t);
  }

  lemma NarrowKeeps(y: int)
    ensures Narrow(y) == y <==> -32768 <= y <= 32767
  {
  }

  lemma SameDaySameDate(s: Date, days: int)
    requires s.Valid() && ToDays(s) == days
    ensures s == FromDays(days)
  {
    FromToDays(s);
  }

  /** Exactly the days of the years -32767 to 32767 survive as ok dates: from_days yields an
      ok date that counts back to the same day if and only if the day lies in that range. */
  lemma RoundTripIffInRange(days: int)
    ensures Ok(FromDaysShort(days)) && ToDays(FromDaysShort(days)) == days <==> FIRST_DAY <= days <= LAST_DAY
  {
    ToFromDays(days);
    RoundTripOf(days, FromDays(days), FromDaysShort(days));
  }

  lemma RoundTripOf(days: int, t: Date, s: Date)
    requires t == FromDays(days) && t.Valid() && ToDays(t) == days && s == t.(y := Narrow(t.y))
    ensures Ok(s) && ToDays(s) == days <==> FIRST_DAY <= days <= LAST_DAY
  {
    NotBeforeFirst(t);
    NotAfterLast(t);
    NarrowKeeps(t.y);
    if Ok(s) && ToDays(s) == days {
      SameDaySameDate(s, days);
    }
  }

  /** Every ok date survives the trip. */
  lemma OkSurvives(t: Date)
    requires Ok(t) && IsShort(t)
    ensures FromDaysShort(ToDays(t)) == t
  {
    FromToDays(t);
    NarrowKeeps(t.y);
  }
}
