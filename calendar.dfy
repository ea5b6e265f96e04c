/** Calendar arithmetic on whole days.

    A day is an integer day number: day 0 is 1970-01-01, which was a Thursday.
    Days are counted in the proleptic Gregorian calendar without time of day,
    so a day number minus n is exactly n calendar days earlier.  Business days
    are the days pandas' `BDay` offset treats as such: Monday to Friday, with
    no holiday calendar. */
module Calendar {

  /** Python's `weekday()`: Monday = 0 ... Sunday = 6. */
  function Weekday(day: int): (w: int)
    ensures 0 <= w < 7
    ensures (w == 3) == (day % 7 == 0)
  {
    (day + 3) % 7
  }

  /** The day number of a Gregorian calendar date (month 1..12). */
  function DaysFromCivil(year: int, month: int, dayOfMonth: int): int
    requires 1 <= month <= 12 && 1 <= dayOfMonth <= 31
  {
    var y := if month <= 2 then year - 1 else year;
    var era := y / 400;
    var yearOfEra := y - era * 400;
    var monthFromMarch := (month + 9) % 12;
    var dayOfYear := (153 * monthFromMarch + 2) / 5 + dayOfMonth - 1;
    var dayOfEra := yearOfEra * 365 + yearOfEra / 4 - yearOfEra / 100 + dayOfYear;
    era * 146097 + dayOfEra - 719468
  }

  predicate IsBusinessDay(day: int)
  {
    Weekday(day) < 5
  }

  /** `day - BDay(0)`: an offset of zero business days leaves a weekday alone
      and rolls a Saturday or Sunday FORWARD to the following Monday. */
  function RollForward(day: int): (r: int)
    ensures day <= r < day + 3
    ensures IsBusinessDay(r)
    ensures forall d :: day <= d < r ==> !IsBusinessDay(d)
  {
    WeekdaysAround(day);
    var w := Weekday(day);
    if w == 5 then day + 2 else if w == 6 then day + 1 else day
  }

  /** The latest business day strictly before `day`. */
  function PreviousBusinessDay(day: int): (r: int)
    ensures day - 3 <= r < day
    ensures IsBusinessDay(r)
    ensures forall d :: r < d < day ==> !IsBusinessDay(d)
  {
    WeekdaysAround(day);
    var w := Weekday(day);
    if w == 0 then day - 3 else if w == 6 then day - 2 else day - 1
  }

  /** The weekdays of the neighbouring days follow the week's cycle. */
  lemma WeekdaysAround(day: int)
    ensures Weekday(day + 1) == (Weekday(day) + 1) % 7
    ensures Weekday(day - 1) == (Weekday(day) + 6) % 7
    ensures Weekday(day - 2) == (Weekday(day) + 5) % 7
    ensures Weekday(day - 3) == (Weekday(day) + 4) % 7
  {
    var q, w := (day + 3) / 7, (day + 3) % 7;
    assert day + 3 == 7 * q + w;
    RemainderOf(day + 4, if w < 6 then q else q + 1, (w + 1) % 7);
    RemainderOf(day + 2, if w >= 1 then q else q - 1, (w + 6) % 7);
    RemainderOf(day + 1, if w >= 2 then q else q - 1, (w + 5) % 7);
    RemainderOf(day, if w >= 3 then q else q - 1, (w + 4) % 7);
  }

  lemma RemainderOf(x: int, q: int, r: int)
    requires x == 7 * q + r && 0 <= r < 7
    ensures x % 7 == r
  {
  }

  /** `day - BDay(n)`: n steps back, each to the previous business day.  For
      n = 0 pandas rolls a weekend day forward instead (`RollForward`), so a
      zero-step subtraction is only this function on a business day. */
  function SubtractBusinessDays(day: int, n: nat): (r: int)
    requires n > 0 || IsBusinessDay(day)
    ensures r <= day - n
    ensures n > 0 ==> IsBusinessDay(r)
    decreases n
  {
    if n == 0 then day else SubtractBusinessDays(PreviousBusinessDay(day), n - 1)
  }

  /** The number of business days d with from <= d < to. */
  function CountBusinessDays(from: int, to: int): nat
    decreases to - from
  {
    if to <= from then 0
    else CountBusinessDays(from, to - 1) + (if IsBusinessDay(to - 1) then 1 else 0)
  }

  lemma {:induction false} CountSplit(a: int, b: int, c: int)
    requires a <= b <= c
    ensures CountBusinessDays(a, c) == CountBusinessDays(a, b) + CountBusinessDays(b, c)
    decreases c - b
  {
    if b < c {
      CountSplit(a, b, c - 1);
    }
  }

  lemma {:induction false} CountWeekend(a: int, b: int)
    requires forall d :: a <= d < b ==> !IsBusinessDay(d)
    ensures CountBusinessDays(a, b) == 0
    decreases b - a
  {
    if a < b {
      CountWeekend(a, b - 1);
    }
  }

  /** Subtracting n business days lands on a day from which exactly n business
      days lead up to (and exclude) the starting day. */
  lemma {:induction false} SubtractBusinessDaysCount(day: int, n: nat)
    requires n > 0 || IsBusinessDay(day)
    ensures CountBusinessDays(SubtractBusinessDays(day, n), day) == n
    decreases n
  {
    if n > 0 {
      var p := PreviousBusinessDay(day);
      var r := SubtractBusinessDays(p, n - 1);
      SubtractBusinessDaysCount(p, n - 1);
      CountSplit(r, p, day);
      CountSplit(p, p + 1, day);
      CountWeekend(p + 1, day);
      assert CountBusinessDays(p, p + 1) == 1;
    }
  }
}
