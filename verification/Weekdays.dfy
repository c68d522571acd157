/** Weekdays of date.h: the weekday of a day number computed in unsigned arithmetic, and
    weekday arithmetic modulo a week. Sunday is 0. */
module Weekdays {
  import opened Calendar

  const MONDAY: int := 1
  const THURSDAY: int := 4

  const UNSIGNED: int := 0x1_0000_0000

  /** weekday::weekday_from_days, on a 32-bit day count. */
  function WeekdayFromDays(z: int): int {
    var u := z % UNSIGNED;
    if z >= -4 then (u + 4) % UNSIGNED % 7 else u % 7
  }

  predicate Int32(z: int) {
    -0x8000_0000 <= z < 0x8000_0000
  }

  /** weekday::weekday(unsigned): both 0 and 7 mean Sunday. */
  function MakeWeekday(wd: int): int {
    if wd != 7 then wd else 0
  }

  /** operator-(weekday, weekday): days from y forward to x. */
  function Minus(x: int, y: int): int {
    var wdu := x - y;
    var wk := TruncDiv(if wdu >= 0 then wdu else wdu - 6, 7);
    wdu - wk * 7
  }

  /** operator+(weekday, days) */
  function Plus(x: int, n: int): int {
    var wdu := x + n;
    var wk := TruncDiv(if wdu >= 0 then wdu else wdu - 6, 7);
    MakeWeekday(wdu - wk * 7)
  }

  lemma MinusForm(x: int, y: int)
    ensures Minus(x, y) == (x - y) % 7
  {
    FloorIdiom(x - y, 7);
  }

  lemma PlusForm(x: int, n: int)
    ensures Plus(x, n) == (x + n) % 7
  {
    FloorIdiom(x + n, 7);
  }

  /** The wrapping branch included, every 32-bit day has the weekday that counts in sevens
      from the epoch, a Thursday. */
  lemma WeekdayCountsInSevens(z: int)
    requires Int32(z)
    ensures WeekdayFromDays(z) == (z + 4) % 7
  {
  }

  /** Weekdays advance cyclically, over any distance and in both directions. */
  lemma WeekdayAdvances(z: int, n: int)
    requires Int32(z) && Int32(z + n)
    ensures WeekdayFromDays(z + n) == Plus(WeekdayFromDays(z), n)
  {
    WeekdayCountsInSevens(z);
    WeekdayCountsInSevens(z + n);
    PlusForm((z + 4) % 7, n);
    AddToRemainder(z + 4, n);
  }

  lemma AddToRemainder(a: int, n: int)
    ensures (a % 7 + n) % 7 == (a + n) % 7
  {
  }

  /** The distance between the weekdays of two days is their distance modulo a week. */
  lemma MinusOfDays(z: int, x: int)
    requires Int32(z) && Int32(x)
    ensures Minus(WeekdayFromDays(z), WeekdayFromDays(x)) == (z - x) % 7
  {
    WeekdayCountsInSevens(z);
    WeekdayCountsInSevens(x);
    MinusForm((z + 4) % 7, (x + 4) % 7);
    RemainderDifference(z + 4, x + 4);
  }

  lemma RemainderDifference(a: int, b: int)
    ensures (a % 7 - b % 7) % 7 == (a - b) % 7
  {
    var d := a % 7 - b % 7;
    assert a - b == (a / 7 - b / 7 + d / 7) * 7 + d % 7;
    DivUnique(a - b, 7, a / 7 - b / 7 + d / 7, d % 7);
  }

  /** Subtraction gives the one distance of less than a week that addition undoes. */
  lemma MinusThenPlus(x: int, y: int)
    requires 0 <= x <= 6 && 0 <= y <= 6
    ensures 0 <= Minus(x, y) <= 6 && Plus(y, Minus(x, y)) == x
    ensures forall n :: 0 <= n <= 6 && Plus(y, n) == x ==> n == Minus(x, y)
  {
    MinusForm(x, y);
    PlusForm(y, Minus(x, y));
    forall n | 0 <= n <= 6 && Plus(y, n) == x ensures n == Minus(x, y) {
      PlusForm(y, n);
    }
  }

  lemma ForwardResidue(a: int, wd: int, k: int)
    requires 0 <= wd <= 6
    ensures (a + (wd - a % 7) % 7 + 7 * k) % 7 == wd
  {
    var q, r := a / 7, a % 7;
    assert a == 7 * q + r;
    if wd >= r {
      DivUnique(wd - r, 7, 0, wd - r);
      DivUnique(a + (wd - r) + 7 * k, 7, q + k, wd);
    } else {
      DivUnique(wd - r, 7, -1, wd - r + 7);
      DivUnique(a + (wd - r + 7) + 7 * k, 7, q + k + 1, wd);
    }
  }

  lemma BackwardResidue(a: int, wd: int)
    requires 0 <= wd <= 6
    ensures (a - (a % 7 - wd) % 7) % 7 == wd
  {
    var q, r := a / 7, a % 7;
    assert a == 7 * q + r;
    if r >= wd {
      DivUnique(r - wd, 7, 0, r - wd);
      DivUnique(a - (r - wd), 7, q, wd);
    } else {
      DivUnique(r - wd, 7, -1, r - wd + 7);
      DivUnique(a - (r - wd + 7), 7, q - 1, wd);
    }
  }

  /** Going forward from day z to weekday wd, and any number of weeks on, lands on wd. */
  lemma ForwardLands(z: int, wd: int, k: int)
    requires 0 <= wd <= 6 && Int32(z) && Int32(z + Minus(wd, WeekdayFromDays(z)) + 7 * k)
    ensures 0 <= Minus(wd, WeekdayFromDays(z)) <= 6
    ensures WeekdayFromDays(z + Minus(wd, WeekdayFromDays(z)) + 7 * k) == wd
  {
    WeekdayCountsInSevens(z);
    MinusForm(wd, (z + 4) % 7);
    ForwardResidue(z + 4, wd, k);
    WeekdayCountsInSevens(z + (wd - (z + 4) % 7) % 7 + 7 * k);
  }

  /** Going back from day z to weekday wd lands on wd. */
  lemma BackwardLands(z: int, wd: int)
    requires 0 <= wd <= 6 && Int32(z) && Int32(z - 6)
    ensures 0 <= Minus(WeekdayFromDays(z), wd) <= 6
    ensures WeekdayFromDays(z - Minus(WeekdayFromDays(z), wd)) == wd
  {
    WeekdayCountsInSevens(z);
    MinusForm((z + 4) % 7, wd);
    BackwardResidue(z + 4, wd);
    WeekdayCountsInSevens(z - ((z + 4) % 7 - wd) % 7);
  }
}
