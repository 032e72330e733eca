/** The proleptic Gregorian calendar (leap rule as in Appendix C of RFC 3339): dates, day
    ordinals counted from 0001-01-01, and how far apart equal calendar days can lie. */
module Calendar {

  datatype Date = Date(year: int, month: int, day: int)

  predicate IsLeap(year: int) {
    year % 4 == 0 && (year % 100 != 0 || year % 400 == 0)
  }

  function DaysInMonth(year: int, month: int): (n: int)
    ensures 28 <= n <= 31
  {
    if month == 2 then if IsLeap(year) then 29 else 28
    else if month in {4, 6, 9, 11} then 30
    else 31
  }

  predicate Valid(d: Date) {
    d.year >= 1 && 1 <= d.month <= 12 && 1 <= d.day <= DaysInMonth(d.year, d.month)
  }

  function NextDay(d: Date): Date {
    if d.day < DaysInMonth(d.year, d.month) then d.(day := d.day + 1)
    else if d.month < 12 then Date(d.year, d.month + 1, 1)
    else Date(d.year + 1, 1, 1)
  }

  /** The date of day `n`: the successor of 0001-01-01 taken `n - 1` times. */
  function DateOf(n: int): Date
    requires n >= 1
  {
    if n == 1 then Date(1, 1, 1) else NextDay(DateOf(n - 1))
  }

  function DaysInYear(year: int): int {
    if IsLeap(year) then 366 else 365
  }

  function DaysBeforeYear(year: int): (n: nat)
    requires year >= 1
    decreases year
  {
    if year == 1 then 0 else DaysBeforeYear(year - 1) + DaysInYear(year - 1)
  }

  function DaysBeforeMonth(year: int, month: int): (n: int)
    requires 1 <= month <= 12
    ensures 28 * (month - 1) <= n
  {
    if month == 1 then 0
    else DaysBeforeMonth(year, month - 1) + DaysInMonth(year, month - 1)
  }

  /** The closed form: how many days the calendar has counted when `d` begins, plus one. */
  function Ordinal(d: Date): int
    requires Valid(d)
  {
    DaysBeforeYear(d.year) + DaysBeforeMonth(d.year, d.month) + d.day
  }

  lemma {:induction false} YearLength(year: int)
    requires year >= 1
    ensures DaysBeforeYear(year + 1) == DaysBeforeYear(year) + DaysInYear(year)
  {
  }

  /** The days before each month, as they are commonly tabled. */
  const CUMULATIVE: seq<int> := [0, 31, 59, 90, 120, 151, 181, 212, 243, 273, 304, 334]

  lemma {:induction false} TableStep(year: int, month: int)
    requires 2 <= month <= 12
    ensures DaysBeforeMonth(year, month) == DaysBeforeMonth(year, month - 1) + DaysInMonth(year, month - 1)
  {
  }

  lemma {:induction false} Tabled(year: int, month: int)
    requires 1 <= month <= 12
    ensures DaysBeforeMonth(year, month)
         == CUMULATIVE[month - 1] + if month > 2 && IsLeap(year) then 1 else 0
  {
    if month > 1 {
      Tabled(year, month - 1);
      TableStep(year, month);
    }
  }

  lemma {:induction false} MonthTable(year: int)
    ensures DaysBeforeMonth(year, 2) == 31
    ensures DaysBeforeMonth(year, 3) == 59 + if IsLeap(year) then 1 else 0
    ensures DaysBeforeMonth(year, 12) == 334 + if IsLeap(year) then 1 else 0
  {
    Tabled(year, 2);
    Tabled(year, 3);
    Tabled(year, 12);
  }

  lemma {:induction false} FloorStep(y: int, k: int)
    requires k > 0
    ensures y / k == (y - 1) / k + if y % k == 0 then 1 else 0
  {
    var q, r := y / k, y % k;
    if r == 0 {
      assert y - 1 == k * (q - 1) + (k - 1);
      Quotient(y - 1, k, q - 1, k - 1);
    } else {
      Quotient(y - 1, k, q, r - 1);
    }
  }

  lemma {:induction false} Quotient(x: int, k: int, q: int, r: int)
    requires k > 0 && x == k * q + r && 0 <= r < k
    ensures x / k == q && x % k == r
  {
    var d := x / k - q;
    assert k * d == r - x % k;
    assert d >= 1 ==> k * d >= k;
    assert d <= -1 ==> k * d <= -k;
  }

  lemma {:induction false} Centuries(year: int)
    ensures year % 400 == 0 ==> year % 100 == 0
    ensures year % 100 == 0 ==> year % 4 == 0
  {
    if year % 400 == 0 {
      Quotient(year, 100, 4 * (year / 400), 0);
    }
    if year % 100 == 0 {
      Quotient(year, 4, 25 * (year / 100), 0);
    }
  }

  /** The count of days before a year in closed form, as date libraries compute it. */
  lemma {:induction false} DaysBeforeYearClosed(year: int)
    requires year >= 1
    ensures var y := year - 1;
            DaysBeforeYear(year) == y * 365 + y / 4 - y / 100 + y / 400
  {
    if year > 1 {
      var y := year - 1;
      DaysBeforeYearClosed(y);
      FloorStep(y, 4);
      FloorStep(y, 100);
      FloorStep(y, 400);
      Centuries(y);
    }
  }

  lemma {:induction false} OrdinalNext(d: Date)
    requires Valid(d)
    ensures Valid(NextDay(d)) && Ordinal(NextDay(d)) == Ordinal(d) + 1
  {
    if d.day == DaysInMonth(d.year, d.month) {
      if d.month < 12 {
        assert DaysBeforeMonth(d.year, d.month + 1) == DaysBeforeMonth(d.year, d.month) + d.day;
      } else {
        MonthTable(d.year);
        YearLength(d.year);
      }
    }
  }

  /** Counting successors and the closed form agree on every day. */
  lemma {:induction false} OrdinalOfDateOf(n: int)
    requires n >= 1
    ensures Valid(DateOf(n)) && Ordinal(DateOf(n)) == n
  {
    if n > 1 {
      OrdinalOfDateOf(n - 1);
      OrdinalNext(DateOf(n - 1));
    }
  }

  function PreviousDay(d: Date): Date {
    if d.day > 1 then d.(day := d.day - 1)
    else if d.month > 1 then Date(d.year, d.month - 1, DaysInMonth(d.year, d.month - 1))
    else Date(d.year - 1, 12, 31)
  }

  lemma {:induction false} PreviousThenNext(d: Date)
    requires Valid(d) && d != Date(1, 1, 1)
    ensures var p := PreviousDay(d); Valid(p) && NextDay(p) == d
  {
  }

  lemma {:induction false} DaysBeforeYearMonotone(a: int, b: int)
    requires 1 <= a <= b
    ensures 365 * (b - a) <= DaysBeforeYear(b) - DaysBeforeYear(a) <= 366 * (b - a)
    decreases b - a
  {
    if a < b {
      DaysBeforeYearMonotone(a, b - 1);
      YearLength(b - 1);
    }
  }

  lemma {:induction false} DateOfOrdinal(d: Date)
    requires Valid(d)
    ensures Ordinal(d) >= 1 && DateOf(Ordinal(d)) == d
    decreases d.year, d.month, d.day
  {
    DaysBeforeYearMonotone(1, d.year);
    if d != Date(1, 1, 1) {
      var p := PreviousDay(d);
      PreviousThenNext(d);
      DateOfOrdinal(p);
      OrdinalNext(p);
    }
  }

  // ---- how soon a calendar day comes round again -----------------------------------------

  /** Of two successive multiples of four, one is a leap year. */
  lemma {:induction false} FourOn(year: int)
    requires year % 4 == 0 && !IsLeap(year)
    ensures year % 100 == 0 && IsLeap(year + 4)
  {
    assert (year + 4) % 100 == 4;
  }

  /** The first leap year at or after `year`: at most seven years on. */
  function NextLeap(year: int): (y: int)
    ensures IsLeap(y) && year <= y <= year + 7
  {
    var q := year + -year % 4;
    if IsLeap(q) then q else
      FourOn(q);
      q + 4
  }

  /** No year before it is a leap year. */
  lemma {:induction false} NextLeapFirst(year: int, x: int)
    requires year <= x && IsLeap(x)
    ensures NextLeap(year) <= x
  {
    LeapIsFourth(x);
    NextFourth(year, x);
  }

  lemma {:induction false} LeapIsFourth(x: int)
    requires IsLeap(x)
    ensures x % 4 == 0
  {
  }

  lemma {:induction false} NextFourth(year: int, x: int)
    requires year <= x && x % 4 == 0
    ensures var q := year + -year % 4; x == q || x >= q + 4
  {
    var q := year + -year % 4;
    assert q == 4 * ((year + 3) / 4);
    assert x == 4 * (x / 4);
  }

  lemma {:induction false} EightYearGap(year: int)
    requires NextLeap(year + 1) == year + 8
    ensures IsLeap(year) && year % 4 == 0 && (year + 4) % 100 == 0 && !IsLeap(year + 4)
  {
    var q := year + 1 + -(year + 1) % 4;
    assert q == year + 4 && !IsLeap(q);
    FourOn(q);
    assert year % 100 == 96;
  }

  lemma {:induction false} PlainYear(year: int)
    requires year >= 1 && year % 4 != 0
    ensures DaysBeforeYear(year + 1) == DaysBeforeYear(year) + 365
  {
    YearLength(year);
  }

  lemma {:induction false} FourYears(year: int)
    requires year >= 1 && year % 4 == 0
    ensures DaysBeforeYear(year + 4) == DaysBeforeYear(year) + DaysInYear(year) + 1095
  {
    YearLength(year);
    PlainYear(year + 1);
    PlainYear(year + 2);
    PlainYear(year + 3);
  }

  lemma {:induction false} EightYears(year: int)
    requires year >= 1 && NextLeap(year + 1) == year + 8
    ensures IsLeap(year) && DaysBeforeYear(year + 8) == DaysBeforeYear(year) + 2921
  {
    EightYearGap(year);
    FourYears(year);
    FourYears(year + 4);
  }

  /** From the start of one leap year to the start of the next: eight years when the leap rule
      skips one, which is the longest gap, and four years otherwise. */
  lemma {:induction false} LongestGap(year: int)
    requires year >= 1 && IsLeap(year)
    ensures var next := NextLeap(year + 1);
            var gap := DaysBeforeYear(next) - DaysBeforeYear(year);
            && (next == year + 4 || next == year + 8)
            && gap == (if IsLeap(year + 4) then 1461 else 2921)
    ensures NextLeap(1897) == 1904 && IsLeap(1896)
  {
    LeapIsFourth(year);
    NextFromLeap(year);
    FourYears(year);
    if !IsLeap(year + 4) {
      EightYears(year);
    }
  }

  lemma {:induction false} NextFromLeap(year: int)
    requires year % 4 == 0
    ensures NextLeap(year + 1) == if IsLeap(year + 4) then year + 4 else year + 8
  {
    var q := year + 1 + -(year + 1) % 4;
    assert q == year + 4;
  }

  /** The same day and month come round within 2921 days of any day: the longest wait is the one
      for February 29 across a century that is not a leap year. */
  lemma {:induction false} Recurs(month: int, day: int, n: int) returns (o: int)
    requires n >= 1 && 1 <= month <= 12 && 1 <= day
    requires day <= DaysInMonth(4, month)
    ensures n <= o <= n + 2920
    ensures DateOf(o).month == month && DateOf(o).day == day
  {
    var a := DateOf(n);
    OrdinalOfDateOf(n);
    var late := a.month > month || (a.month == month && a.day > day);
    var start := if late then a.year + 1 else a.year;
    var year := if month == 2 && day == 29 then NextLeap(start) else start;
    var d := Date(year, month, day);
    DateOfOrdinal(d);
    o := Ordinal(d);
    assert a.year <= year;
    if year == a.year {
      SameYear(a, d);
    } else if month == 2 && day == 29 {
      LeapDayWait(a, d);
    } else {
      NextYear(a, d);
    }
  }

  lemma {:induction false} SameYear(a: Date, d: Date)
    requires Valid(a) && Valid(d) && a.year == d.year
    requires a.month < d.month || (a.month == d.month && a.day <= d.day)
    ensures Ordinal(a) <= Ordinal(d) <= Ordinal(a) + 366
  {
    MonthStarts(a.year, a.month, d.month);
    MonthBounds(a.year, a.month);
    MonthBounds(a.year, d.month);
  }

  lemma {:induction false} NextYear(a: Date, d: Date)
    requires Valid(a) && Valid(d) && d.year == a.year + 1
    ensures Ordinal(a) < Ordinal(d) <= Ordinal(a) + 732
  {
    YearLength(a.year);
    MonthBounds(a.year, a.month);
    MonthBounds(d.year, d.month);
  }

  lemma {:induction false} LeapDayWait(a: Date, d: Date)
    requires Valid(a) && Valid(d) && d.month == 2 && d.day == 29 && a.year < d.year
    requires d.year == NextLeap(a.year) || (d.year == NextLeap(a.year + 1) && a.month > 2)
    ensures Ordinal(a) < Ordinal(d) <= Ordinal(a) + 2920
  {
    MonthTable(d.year);
    MonthTable(a.year);
    MonthBounds(a.year, a.month);
    DaysBeforeYearMonotone(a.year + 1, d.year);
    YearLength(a.year);
    if d.year == a.year + 8 {
      EightYears(a.year);
      MonthStarts(a.year, 3, a.month);
    }
  }

  lemma {:induction false} MonthStarts(year: int, m1: int, m2: int)
    requires 1 <= m1 <= 12 && 1 <= m2 <= 12
    ensures m1 < m2 ==> DaysBeforeMonth(year, m1) + DaysInMonth(year, m1) <= DaysBeforeMonth(year, m2)
    ensures m1 <= m2 ==> DaysBeforeMonth(year, m1) <= DaysBeforeMonth(year, m2)
    decreases m2
  {
    if m1 < m2 {
      MonthStarts(year, m1, m2 - 1);
    }
  }

  lemma {:induction false} MonthBounds(year: int, month: int)
    requires 1 <= month <= 12
    ensures 0 <= DaysBeforeMonth(year, month)
    ensures DaysBeforeMonth(year, month) + DaysInMonth(year, month)
         <= if IsLeap(year) then 366 else 365
  {
    MonthTable(year);
    MonthStarts(year, month, 12);
  }

  /** Seven consecutive days from the first of a month stay in it, so it holds every weekday. */
  lemma {:induction false} WeekdayRecurs(month: int, weekday: int, n: int) returns (o: int)
    requires n >= 1 && 1 <= month <= 12 && 0 <= weekday < 7
    ensures n <= o <= n + 2926
    ensures DateOf(o).month == month && o % 7 == weekday
  {
    var first := Recurs(month, 1, n);
    var k := (weekday - first) % 7;
    WithinMonth(first, k);
    o := first + k;
    WeekdayReached(first, weekday);
  }

  lemma {:induction false} WeekdayReached(first: int, weekday: int)
    requires 0 <= weekday < 7
    ensures (first + (weekday - first) % 7) % 7 == weekday
  {
    var q := (weekday - first) / 7;
    assert first + (weekday - first) % 7 == weekday + 7 * -q;
  }

  lemma {:induction false} WithinMonth(first: int, k: nat)
    requires first >= 1 && DateOf(first).day == 1 && k < 28
    ensures DateOf(first + k) == DateOf(first).(day := 1 + k)
  {
    if k > 0 {
      WithinMonth(first, k - 1);
    }
  }
}
