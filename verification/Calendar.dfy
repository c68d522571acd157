/** The civil calendar of date.h: the closed-form day count, its inverse, and the plain
    calendar of leap years and month lengths they must agree with. Years are unbounded
    here; ShortYear.dfy adds the 16-bit year of the source. */
module Calendar {

  /** C++ integer division, which truncates toward zero. */
  function TruncDiv(a: int, b: int): int
    requires b > 0
  {
    if a >= 0 then a / b else -((-a) / b)
  }

  function TruncMod(a: int, b: int): int
    requires b > 0
  {
    a - b * TruncDiv(a, b)
  }

  /** `year_month_day` */
  datatype Date = Date(y: int, m: int, d: int) {

    predicate Valid() {
      1 <= m <= 12 && 1 <= d <= LastDay(y, m)
    }

    /** operator<, the lexicographic order */
    predicate Before(that: Date) {
      if y < that.y then true
      else if y > that.y then false
      else if m < that.m then true
      else if m > that.m then false
      else d < that.d
    }
  }

  /** year::is_leap */
  predicate IsLeap(y: int) {
    TruncMod(y, 4) == 0 && (TruncMod(y, 100) != 0 || TruncMod(y, 400) == 0)
  }

  const MONTH_DAYS: seq<int> := [31, 28, 31, 30, 31, 30, 31, 31, 30, 31, 30, 31]

  /** year_month_day_last::day; an invalid month yields 29. */
  function LastDay(y: int, m: int): int {
    if (m != 2 || !IsLeap(y)) && 1 <= m <= 12 then MONTH_DAYS[m - 1] else 29
  }

  /** Days from March 1st to the first of month mp of the year that starts in March. */
  function MonthStart(mp: int): int {
    (153 * mp + 2) / 5
  }

  /** Days from the start of an era to year yoe of it. */
  function YearStart(yoe: int): int {
    yoe * 365 + yoe / 4 - yoe / 100
  }

  /** year_month_day::to_days */
  function ToDays(t: Date): int {
    var y := t.y - (if t.m <= 2 then 1 else 0);
    var era := TruncDiv(if y >= 0 then y else y - 399, 400);
    var yoe := y - era * 400;
    var doy := MonthStart(if t.m > 2 then t.m - 3 else t.m + 9) + t.d - 1;
    var doe := YearStart(yoe) + doy;
    era * 146097 + doe - 719468
  }

  function YearOfEra(doe: int): int {
    (doe - doe / 1460 + doe / 36524 - doe / 146096) / 365
  }

  /** The body of year_month_day::from_days, before the year is narrowed. */
  function FromDays(days: int): Date {
    var z := days + 719468;
    var era := EraOf(z);
    var doe := z - era * 146097;
    DateInEra(era, doe)
  }

  function EraOf(z: int): int {
    TruncDiv(if z >= 0 then z else z - 146096, 146097)
  }

  function DateInEra(era: int, doe: int): Date {
    var yoe := YearOfEra(doe);
    var y := yoe + era * 400;
    var doy := doe - YearStart(yoe);
    MarchDate(y, doy)
  }

  /** The end of from_days: the date of day doy of the year that starts in March of year y. */
  function MarchDate(y: int, doy: int): Date {
    var mp := (5 * doy + 2) / 153;
    var d := doy - MonthStart(mp) + 1;
    var m := if mp < 10 then mp + 3 else mp - 9;
    Date(y + (if m <= 2 then 1 else 0), m, d)
  }

  // ---- the division idioms ------------------------------------------------------------

  /** The shifted truncating division is division rounding down. */
  lemma FloorIdiom(a: int, b: int)
    requires b > 0
    ensures TruncDiv(if a >= 0 then a else a - (b - 1), b) == a / b
  {
    if a < 0 {
      var q, r := a / b, a % b;
      assert a == q * b + r;
      assert -(a - (b - 1)) == (-q) * b + (b - 1 - r);
      assert 0 <= b - 1 - r < b;
      DivUnique(-(a - (b - 1)), b, -q, b - 1 - r);
    }
  }

  lemma DivUnique(a: int, b: int, q: int, r: int)
    requires b > 0 && a == q * b + r && 0 <= r < b
    ensures a / b == q
  {
    var d := a / b - q;
    assert a == (a / b) * b + a % b;
    assert d * b == r - a % b;
    assert d >= 1 ==> d * b >= b;
    assert d <= -1 ==> d * b <= -b;
  }

  /** The sign of the remainder does not matter for divisibility. */
  lemma TruncModZero(a: int, b: int)
    requires b > 0
    ensures TruncMod(a, b) == 0 <==> a % b == 0
  {
    if a >= 0 {
    } else {
      var q, r := (-a) / b, (-a) % b;
      assert -a == q * b + r;
      if a % b == 0 {
        assert -a == (-(a / b)) * b;
        DivUnique(-a, b, -(a / b), 0);
      }
      if r == 0 {
        DivUnique(a, b, -q, 0);
      }
    }
  }

  lemma LeapRule(y: int)
    ensures IsLeap(y) <==> y % 4 == 0 && (y % 100 != 0 || y % 400 == 0)
  {
    TruncModZero(y, 4);
    TruncModZero(y, 100);
    TruncModZero(y, 400);
  }

  // ---- years that start in March ---------------------------------------------------------

  /** The day of the era after the last one of year yoe. */
  function YearEnd(yoe: int): int {
    if yoe == 399 then 146097 else YearStart(yoe + 1)
  }

  lemma YearOfEraUnique(yoe: int, doe: int)
    requires 0 <= yoe <= 399 && YearStart(yoe) <= doe < YearEnd(yoe)
    ensures YearOfEra(doe) == yoe && 0 <= doe <= 146096
  {
    var c, q, r := yoe / 100, yoe % 100 / 4, yoe % 4;
    assert yoe == 100 * c + 4 * q + r && 0 <= c <= 3 && 0 <= q <= 24 && 0 <= r <= 3;
    YearOfEraParts(c, q, r, doe - YearStart(yoe));
  }

  /** An era is four centuries, a century 25 groups of four years. */
  lemma YearOfEraParts(c: int, q: int, r: int, t: int)
    requires 0 <= c <= 3 && 0 <= q <= 24 && 0 <= r <= 3 && 0 <= t <= 365
    requires t == 365 ==> r == 3 && (q < 24 || c == 3)
    ensures YearOfEra(36524 * c + 1461 * q + 365 * r + t) == 100 * c + 4 * q + r
    ensures 36524 * c + 1461 * q + 365 * r + t <= 146096
  {
    var doe := 36524 * c + 1461 * q + 365 * r + t;
    var e := if 24 * c + q + 365 * r + t >= 1460 then 1 else 0;
    DivUnique(doe, 1460, 25 * c + q + e, 24 * c + q + 365 * r + t - 1460 * e);
    if doe == 146096 {
    } else {
      DivUnique(doe, 36524, c, 1461 * q + 365 * r + t);
      DivUnique(doe, 146096, 0, doe);
    }
    DivUnique(doe - doe / 1460 + doe / 36524 - doe / 146096, 365, 100 * c + 4 * q + r, t - e);
  }

  lemma YearOfEraInRange(doe: int)
    requires 0 <= doe <= 146096
    ensures 0 <= YearOfEra(doe) <= 399 && YearStart(YearOfEra(doe)) <= doe < YearEnd(YearOfEra(doe))
  {
    var c := if doe == 146096 then 3 else doe / 36524;
    var inC := doe - 36524 * c;
    var q := inC / 1461;
    var inQ := inC - 1461 * q;
    var r := if inQ == 1460 then 3 else inQ / 365;
    YearOfEraParts(c, q, r, inQ - 365 * r);
    YearSpanOfParts(c, q, r);
  }

  lemma YearSpanOfParts(c: int, q: int, r: int)
    requires 0 <= c <= 3 && 0 <= q <= 24 && 0 <= r <= 3
    ensures var n := 100 * c + 4 * q + r;
            && YearStart(n) == 36524 * c + 1461 * q + 365 * r
            && YearEnd(n) == YearStart(n) + if r == 3 && (q < 24 || c == 3) then 366 else 365
  {
    var n := 100 * c + 4 * q + r;
    DivUnique(n, 4, 25 * c + q, r);
    DivUnique(n, 100, c, 4 * q + r);
    if r < 3 {
      DivUnique(n + 1, 4, 25 * c + q, r + 1);
      DivUnique(n + 1, 100, c, 4 * q + r + 1);
    } else {
      DivUnique(n + 1, 4, 25 * c + q + 1, 0);
      DivUnique(n + 1, 100, if q < 24 then c else c + 1, if q < 24 then 4 * q + 4 else 0);
    }
  }

  lemma MonthOfYearUnique(mp: int, doy: int)
    requires 0 <= mp <= 11 && MonthStart(mp) <= doy < MonthStart(mp + 1)
    ensures (5 * doy + 2) / 153 == mp
  {
  }

  lemma MonthOfYearInRange(doy: int)
    requires 0 <= doy <= 365
    ensures var mp := (5 * doy + 2) / 153; 0 <= mp <= 11 && MonthStart(mp) <= doy < MonthStart(mp + 1)
  {
  }

  /** The first day of the year that starts in March of year y, counted like to_days. */
  function MarchFirst(y: int): int {
    y / 400 * 146097 + YearStart(y % 400) - 719468
  }

  function MarchYearLength(y: int): int {
    if IsLeap(y + 1) then 366 else 365
  }

  lemma ModOfMultiple(e: int, k: int, b: int, f: int)
    requires b > 0 && f >= 0
    ensures (b * f * e + k) % b == k % b
  {
    var q, r := k / b, k % b;
    assert k == q * b + r;
    assert b * f * e + k == (f * e + q) * b + r;
    DivUnique(b * f * e + k, b, f * e + q, r);
  }

  /** Leap years repeat with the era. */
  lemma LeapInEra(e: int, k: int)
    ensures IsLeap(400 * e + k) <==> k % 4 == 0 && (k % 100 != 0 || k % 400 == 0)
  {
    LeapRule(400 * e + k);
    ModOfMultiple(e, k, 4, 100);
    ModOfMultiple(e, k, 100, 4);
    ModOfMultiple(e, k, 400, 1);
  }

  lemma YearInEraLength(n: int)
    requires 0 <= n <= 399
    ensures YearEnd(n) - YearStart(n)
            == if (n + 1) % 4 == 0 && ((n + 1) % 100 != 0 || (n + 1) % 400 == 0) then 366 else 365
  {
  }

  lemma MarchYearSpan(y: int)
    ensures YearEnd(y % 400) - YearStart(y % 400) == MarchYearLength(y)
    ensures MarchFirst(y + 1) == MarchFirst(y) + MarchYearLength(y)
  {
    var e, n := y / 400, y % 400;
    MarchYearLengthInEra(e, n);
    if n == 399 {
      MarchFirstInEra(e + 1, 0);
    } else {
      MarchFirstInEra(e, n + 1);
    }
  }

  function MarchYear(t: Date): int {
    if t.m <= 2 then t.y - 1 else t.y
  }

  function MarchMonth(m: int): int {
    if m > 2 then m - 3 else m + 9
  }

  function DayOfMarchYear(t: Date): int {
    MonthStart(MarchMonth(t.m)) + t.d - 1
  }

  /** to_days counts the days since the preceding March 1st. */
  lemma ToDaysForm(t: Date)
    ensures ToDays(t) == MarchFirst(MarchYear(t)) + DayOfMarchYear(t)
  {
    FloorIdiom(MarchYear(t), 400);
  }

  lemma MonthLengths(mp: int)
    requires 0 <= mp <= 10
    ensures MonthStart(mp + 1) - MonthStart(mp) == MONTH_DAYS[(mp + 2) % 12]
    ensures MonthStart(mp) == [0, 31, 61, 92, 122, 153, 184, 214, 245, 275, 306][mp]
  {
  }

  /** A date is valid exactly when its day lies in its month, counted from March. */
  lemma ValidForm(t: Date)
    requires 1 <= t.m <= 12
    ensures t.Valid() <==>
            && MonthStart(MarchMonth(t.m)) <= DayOfMarchYear(t) < MarchYearLength(MarchYear(t))
            && DayOfMarchYear(t) < MonthStart(MarchMonth(t.m) + 1)
    ensures t.Valid() ==> 0 <= DayOfMarchYear(t) <= 365
  {
    var mp := MarchMonth(t.m);
    if mp <= 10 {
      MonthLengths(mp);
    } else {
      assert t.m == 2 && MonthStart(11) == 337 && MonthStart(12) == 367;
    }
  }

  // ---- mutual inverses -------------------------------------------------------------------

  lemma FromDaysForm(days: int, era: int, doe: int)
    requires 0 <= doe <= 146096 && days + 719468 == era * 146097 + doe
    ensures FromDays(days) == DateInEra(era, doe)
  {
    EraForm(days + 719468, era, doe);
  }

  lemma EraForm(z: int, era: int, doe: int)
    requires z == era * 146097 + doe && 0 <= doe <= 146096
    ensures EraOf(z) == era
  {
    FloorIdiom(z, 146097);
    DivUnique(z, 146097, era, doe);
  }

  lemma MarchDateInverse(t: Date)
    requires t.Valid()
    ensures MarchDate(MarchYear(t), DayOfMarchYear(t)) == t
  {
    ValidForm(t);
    MonthOfYearUnique(MarchMonth(t.m), DayOfMarchYear(t));
  }

  lemma MarchDateForm(y: int, doy: int)
    requires 0 <= doy < MarchYearLength(y)
    ensures var t := MarchDate(y, doy); t.Valid() && MarchYear(t) == y && DayOfMarchYear(t) == doy
  {
    MonthOfYearInRange(doy);
    ValidForm(MarchDate(y, doy));
  }

  /** Every valid date survives the trip through the day count. */
  lemma FromToDays(t: Date)
    requires t.Valid()
    ensures FromDays(ToDays(t)) == t
  {
    var era, doe := CountInEra(t);
    FromDaysForm(ToDays(t), era, doe);
  }

  lemma DateOfCount(t: Date, days: int)
    requires t.Valid() && days == ToDays(t)
    ensures FromDays(days) == t
  {
    FromToDays(t);
  }

  lemma CountInEra(t: Date) returns (era: int, doe: int)
    requires t.Valid()
    ensures 0 <= doe <= 146096 && ToDays(t) == era * 146097 + doe - 719468 && DateInEra(era, doe) == t
  {
    era := MarchYear(t) / 400;
    var yoe := MarchYear(t) % 400;
    doe := YearStart(yoe) + DayOfMarchYear(t);
    ToDaysForm(t);
    DateInEraInverse(t, era, yoe);
  }

  lemma DateInEraInverse(t: Date, era: int, yoe: int)
    requires t.Valid() && MarchYear(t) == era * 400 + yoe && 0 <= yoe <= 399
    ensures var doe := YearStart(yoe) + DayOfMarchYear(t);
            0 <= doe <= 146096 && DateInEra(era, doe) == t
  {
    ValidForm(t);
    MarchYearLengthInEra(era, yoe);
    EraDateOf(era, yoe, DayOfMarchYear(t));
    MarchDateInverse(t);
  }

  lemma EraDateOf(era: int, yoe: int, doy: int)
    requires 0 <= yoe <= 399 && 0 <= doy < YearEnd(yoe) - YearStart(yoe)
    ensures 0 <= YearStart(yoe) + doy <= 146096
    ensures DateInEra(era, YearStart(yoe) + doy) == MarchDate(era * 400 + yoe, doy)
  {
    YearOfEraUnique(yoe, YearStart(yoe) + doy);
  }

  lemma MarchYearLengthInEra(era: int, yoe: int)
    requires 0 <= yoe <= 399
    ensures MarchYearLength(era * 400 + yoe) == YearEnd(yoe) - YearStart(yoe)
  {
    assert era * 400 + yoe + 1 == 400 * era + (yoe + 1);
    LeapInEra(era, yoe + 1);
    YearInEraLength(yoe);
  }

  /** Every day number is the count of a valid date. */
  lemma ToFromDays(days: int)
    ensures FromDays(days).Valid() && ToDays(FromDays(days)) == days
  {
    var era, doe := SplitEra(days);
    var yoe, doy := SplitYear(era, doe);
    MarchDateCounts(era, yoe, doy);
  }

  lemma SplitEra(days: int) returns (era: int, doe: int)
    ensures 0 <= doe <= 146096 && days == era * 146097 + doe - 719468
    ensures FromDays(days) == DateInEra(era, doe)
  {
    era, doe := (days + 719468) / 146097, (days + 719468) % 146097;
    FromDaysForm(days, era, doe);
  }

  lemma SplitYear(era: int, doe: int) returns (yoe: int, doy: int)
    requires 0 <= doe <= 146096
    ensures 0 <= yoe <= 399 && 0 <= doy < YearEnd(yoe) - YearStart(yoe) && doe == YearStart(yoe) + doy
    ensures DateInEra(era, doe) == MarchDate(era * 400 + yoe, doy)
  {
    YearOfEraInRange(doe);
    yoe := YearOfEra(doe);
    doy := doe - YearStart(yoe);
  }

  lemma MarchDateCounts(era: int, yoe: int, doy: int)
    requires 0 <= yoe <= 399 && 0 <= doy < YearEnd(yoe) - YearStart(yoe)
    ensures var t := MarchDate(era * 400 + yoe, doy);
            t.Valid() && ToDays(t) == era * 146097 + YearStart(yoe) + doy - 719468
  {
    MarchYearLengthInEra(era, yoe);
    MarchDateForm(era * 400 + yoe, doy);
    ToDaysForm(MarchDate(era * 400 + yoe, doy));
    MarchFirstInEra(era, yoe);
  }

  lemma MarchFirstInEra(era: int, yoe: int)
    requires 0 <= yoe <= 399
    ensures MarchFirst(era * 400 + yoe) == era * 146097 + YearStart(yoe) - 719468
  {
    DivUnique(era * 400 + yoe, 400, era, yoe);
  }

  /** Every intermediate result of to_days lies in the range its comment gives, so the
      unsigned arithmetic of the source does not wrap on a valid date. */
  lemma ToDaysRanges(t: Date)
    requires t.Valid()
    ensures var y := t.y - (if t.m <= 2 then 1 else 0);
            var era := TruncDiv(if y >= 0 then y else y - 399, 400);
            var yoe := y - era * 400;
            var doy := MonthStart(if t.m > 2 then t.m - 3 else t.m + 9) + t.d - 1;
            0 <= yoe <= 399 && 0 <= doy <= 365 && 0 <= YearStart(yoe) + doy <= 146096
  {
    var y := MarchYear(t);
    FloorIdiom(y, 400);
    ValidForm(t);
    DateInEraInverse(t, y / 400, y % 400);
  }

  /** Every intermediate result of from_days lies in the range its comment gives. */
  lemma FromDaysRanges(days: int)
    ensures var z := days + 719468;
            var era := EraOf(z);
            var doe := z - era * 146097;
            var yoe := YearOfEra(doe);
            var doy := doe - YearStart(yoe);
            var mp := (5 * doy + 2) / 153;
            var d := doy - MonthStart(mp) + 1;
            var m := if mp < 10 then mp + 3 else mp - 9;
            0 <= doe <= 146096 && 0 <= yoe <= 399 && 0 <= doy <= 365 && 0 <= mp <= 11 && 1 <= d <= 31 && 1 <= m <= 12
  {
    var z := days + 719468;
    FloorIdiom(z, 146097);
    YearOfEraInRange(z % 146097);
    YearInEraLength(YearOfEra(z % 146097));
    DayOfMonth(z % 146097 - YearStart(YearOfEra(z % 146097)));
  }

  lemma DayOfMonth(doy: int)
    requires 0 <= doy <= 365
    ensures var mp := (5 * doy + 2) / 153; 0 <= mp <= 11 && 1 <= doy - MonthStart(mp) + 1 <= 31
  {
    MonthOfYearInRange(doy);
    var mp := (5 * doy + 2) / 153;
    if mp <= 10 {
      MonthLengths(mp);
    } else {
      assert MonthStart(11) == 337;
    }
  }

  // ---- agreement with the plain calendar ------------------------------------------------

  /** The day after, by month lengths alone. */
  function Next(t: Date): Date {
    if t.d < LastDay(t.y, t.m) then Date(t.y, t.m, t.d + 1)
    else if t.m < 12 then Date(t.y, t.m + 1, 1)
    else Date(t.y + 1, 1, 1)
  }

  const EPOCH: Date := Date(1970, 1, 1)

  lemma EpochIsZero()
    ensures EPOCH.Valid() && ToDays(EPOCH) == 0
  {
  }

  lemma NextIsOneLater(t: Date)
    requires t.Valid()
    ensures Next(t).Valid() && ToDays(Next(t)) == ToDays(t) + 1
  {
    if t.d < LastDay(t.y, t.m) {
      SameMonthNext(t);
    } else {
      NextMonthNext(t);
    }
  }

  lemma NextMonthNext(t: Date)
    requires t.Valid() && t.d == LastDay(t.y, t.m)
    ensures Next(t).Valid() && ToDays(Next(t)) == ToDays(t) + 1
  {
    ToDaysForm(t);
    ToDaysForm(Next(t));
    MonthTurns(t);
  }

  lemma SameMonthNext(t: Date)
    requires t.Valid() && t.d < LastDay(t.y, t.m)
    ensures Next(t).Valid() && ToDays(Next(t)) == ToDays(t) + 1
  {
    ToDaysForm(t);
    ToDaysForm(Next(t));
  }

  lemma MonthTurns(t: Date)
    requires t.Valid() && t.d == LastDay(t.y, t.m)
    ensures var n := Next(t);
            MarchFirst(MarchYear(n)) + DayOfMarchYear(n) == MarchFirst(MarchYear(t)) + DayOfMarchYear(t) + 1
  {
    if t.m == 2 {
      MarchYearSpan(t.y - 1);
      assert MonthStart(11) == 337 && MonthStart(0) == 0;
    } else {
      MonthLengths(MarchMonth(t.m));
      assert MarchYear(Next(t)) == MarchYear(t);
    }
  }

  /** The date n days after t, one day at a time. */
  function After(t: Date, n: nat): Date {
    if n == 0 then t else Next(After(t, n - 1))
  }

  lemma {:induction false} AfterCounts(t: Date, n: nat)
    requires t.Valid()
    ensures After(t, n).Valid() && ToDays(After(t, n)) == ToDays(t) + n
  {
    if n > 0 {
      AfterCounts(t, n - 1);
      NextIsOneLater(After(t, n - 1));
    }
  }

  /** The closed form refines the plain calendar: from_days names the date reached by
      stepping day by day, from any date and over any number of days. */
  lemma ClosedFormIsStepping(days: int, n: nat)
    ensures FromDays(days + n) == After(FromDays(days), n)
  {
    var t := FromDays(days);
    ToFromDays(days);
    AfterCounts(t, n);
    FromToDays(After(t, n));
  }

  lemma {:induction false} MarchFirstGrows(x: int, y: int)
    requires x <= y
    ensures MarchFirst(x) <= MarchFirst(y)
    decreases y - x
  {
    if x < y {
      MarchFirstGrows(x, y - 1);
      MarchYearSpan(y - 1);
    }
  }

  lemma EarlierCountsLess(a: Date, b: Date)
    requires a.Valid() && b.Valid() && a.Before(b)
    ensures ToDays(a) < ToDays(b)
  {
    ToDaysForm(a);
    ToDaysForm(b);
    MarchOrder(a, b);
    YearsInOrder(MarchYear(a), MarchYear(b));
  }

  lemma YearsInOrder(x: int, y: int)
    ensures x < y ==> MarchFirst(x) + MarchYearLength(x) <= MarchFirst(y)
  {
    if x < y {
      MarchYearSpan(x);
      MarchFirstGrows(x + 1, y);
    }
  }

  /** Counted from March, earlier dates have an earlier year, or an earlier day in it. */
  lemma MarchOrder(a: Date, b: Date)
    requires a.Valid() && b.Valid() && a.Before(b)
    ensures 0 <= DayOfMarchYear(a) < MarchYearLength(MarchYear(a)) && 0 <= DayOfMarchYear(b)
    ensures MarchYear(a) < MarchYear(b) || (MarchYear(a) == MarchYear(b) && DayOfMarchYear(a) < DayOfMarchYear(b))
  {
    ValidForm(a);
    ValidForm(b);
    MonthsInOrder(MarchMonth(a.m), MarchMonth(b.m));
  }

  lemma MonthsInOrder(p: int, q: int)
    requires 0 <= p && q <= 11
    ensures p < q ==> MonthStart(p + 1) <= MonthStart(q)
  {
  }

  /** The day count orders dates exactly as the lexicographic order does. */
  lemma ToDaysMonotone(a: Date, b: Date)
    requires a.Valid() && b.Valid()
    ensures a.Before(b) <==> ToDays(a) < ToDays(b)
  {
    if a.Before(b) {
      EarlierCountsLess(a, b);
    } else if b.Before(a) {
      EarlierCountsLess(b, a);
    }
  }
}
