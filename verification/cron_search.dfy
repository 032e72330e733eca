/** Searching for the next selected minute. An instant is its UTC minute, counted from the start of
    day ordinal zero, plus the seconds and microseconds the search truncates. */
module CronSearch {
  import opened Calendar
  import opened Cron
  import opened Sets

  const DAY := 1440
  const MAX_SEARCH_DAYS := 8 * 366

  /** `datetime.max` falls on this day; arithmetic past it raises `OverflowError`. */
  const MAX_ORDINAL := 3_652_059

  datatype Instant = Instant(minute: int, microseconds: nat) {
    /** An aware datetime: a day of the calendar, and less than a minute left over. */
    predicate Valid() {
      DAY <= minute < (MAX_ORDINAL + 1) * DAY && microseconds < 60_000_000
    }
  }

  function DayOf(t: int): int { t / DAY }

  function HourOf(t: int): int { t % DAY / 60 }

  function MinuteOf(t: int): int { t % DAY % 60 }

  /** Monday is 0, as `datetime.weekday` has it; 0001-01-01 was a Monday. */
  function PythonWeekday(day: int): int { (day + 6) % 7 }

  predicate SelectsDay(s: Schedule, day: int)
    requires day >= 1
  {
    var selectedWeekday := (PythonWeekday(day) + 1) % 7;
    if s.dayOfMonth.isStarred then selectedWeekday in s.dayOfWeek.values
    else if s.dayOfWeek.isStarred then DateOf(day).day in s.dayOfMonth.values
    else DateOf(day).day in s.dayOfMonth.values || selectedWeekday in s.dayOfWeek.values
  }

  /** Both calendar conditions of `selects`, for a whole day. */
  predicate SelectedDay(s: Schedule, day: int)
    requires day >= 1
  {
    DateOf(day).month in s.month.values && SelectsDay(s, day)
  }

  /** `CronSchedule.selects` for the minute `t`. */
  predicate Selects(s: Schedule, t: int)
    requires t >= DAY
  {
    && MinuteOf(t) in s.minute.values && HourOf(t) in s.hour.values
    && SelectedDay(s, DayOf(t))
  }

  // ---- what selecting means, told from the calendar -----------------------------------------

  /** The day of the week, Sunday 0: 0001-01-01 was a Monday, and each day comes one later. */
  function Weekday(day: int): (w: int)
    requires day >= 1
    ensures 0 <= w < 7
  {
    if day == 1 then 1 else (Weekday(day - 1) + 1) % 7
  }

  lemma {:induction false} WeekdayClosed(day: int)
    requires day >= 1
    ensures Weekday(day) == day % 7 == (PythonWeekday(day) + 1) % 7
  {
    if day > 1 {
      WeekdayClosed(day - 1);
    }
  }

  lemma {:induction false} OrdinalAtEnd(year: int)
    requires year == 9999
    ensures Ordinal(Date(year, 12, 31)) == MAX_ORDINAL
  {
    DaysBeforeYearClosed(year);
    MonthTable(year);
  }

  lemma {:induction false} OrdinalAt2000(year: int)
    requires year == 2000
    ensures Ordinal(Date(year, 1, 1)) == 730_120
  {
    DaysBeforeYearClosed(year);
  }

  /** The last day a datetime can name is the last of the year 9999. */
  lemma {:induction false} LastDay(n: int, year: int)
    requires n == MAX_ORDINAL && year == 9999
    ensures DateOf(n) == Date(year, 12, 31)
  {
    OrdinalAtEnd(year);
    DateOfOrdinal(Date(year, 12, 31));
  }

  /** The count of weekdays against the calendar: 2000-01-01 was a Saturday, the next day a Sunday. */
  lemma {:induction false} WeekdayAnchored(n: int, year: int)
    requires n == 730_120 && year == 2000
    ensures DateOf(n) == Date(year, 1, 1) && Weekday(n) == 6 && Weekday(n + 1) == 0
  {
    OrdinalAt2000(year);
    DateOfOrdinal(Date(year, 1, 1));
    Remainders(n);
  }

  lemma {:induction false} Remainders(n: int)
    requires n == 730_120
    ensures Weekday(n) == 6 && Weekday(n + 1) == 0
  {
    WeekdayClosed(n);
    WeekdayClosed(n + 1);
    assert n == 7 * 104_302 + 6;
  }

  /** A day is chosen when its month is, and: with both day fields restricted, either of them
      holds it; with one starred, the other decides; with both, the weekdays do. */
  ghost predicate DayChosen(s: Schedule, day: int)
    requires day >= 1
  {
    var date := DateOf(day);
    var onDate, onWeekday := date.day in s.dayOfMonth.values, Weekday(day) in s.dayOfWeek.values;
    && date.month in s.month.values
    && match (s.dayOfMonth.isStarred, s.dayOfWeek.isStarred)
       case (false, false) => onDate || onWeekday
       case (false, true) => onDate
       case (true, false) => onWeekday
       case (true, true) => onWeekday
  }

  /** A minute is chosen when its day is, its hour and its minute. */
  ghost predicate Chosen(s: Schedule, t: int)
    requires t >= DAY
  {
    && DayChosen(s, DayOf(t)) && HourOf(t) in s.hour.values && MinuteOf(t) in s.minute.values
  }

  /** What the branches of the code select is what is chosen. */
  lemma {:induction false} DaySelectedIff(s: Schedule, day: int)
    requires day >= 1
    ensures SelectedDay(s, day) <==> DayChosen(s, day)
  {
    WeekdayClosed(day);
  }

  lemma {:induction false} SelectsIff(s: Schedule, day: int, hour: int, minute: int)
    requires day >= 1 && 0 <= hour < 24 && 0 <= minute < 60
    ensures var t := day * 1440 + hour * 60 + minute;
            && (Selects(s, t) <==> Chosen(s, t))
            && (Chosen(s, t) <==>
                  DayChosen(s, day) && hour in s.hour.values && minute in s.minute.values)
  {
    DaySelectedIff(s, day);
    MinuteAtParts(day, hour, minute);
  }

  /** `t` is the first selected minute strictly after the minute `after`. */
  ghost predicate IsNext(s: Schedule, after: int, t: int)
    requires after >= DAY
  {
    after < t && Chosen(s, t) && forall u :: after < u < t ==> !Chosen(s, u)
  }

  ghost predicate NoneBetween(s: Schedule, lo: int, hi: int)
    requires lo >= DAY
  {
    forall u :: lo <= u < hi ==> !Chosen(s, u)
  }

  datatype Search = Found(at: int) | Exhausted | Overflowed

  predicate Increasing(q: seq<int>) {
    forall i, j :: 0 <= i < j < |q| ==> q[i] < q[j]
  }

  /** `sorted(values)` */
  method Sorted(values: set<int>) returns (q: seq<int>)
    ensures Increasing(q) && forall x :: x in q <==> x in values
  {
    q := [];
    var rest := values;
    while rest != {}
      invariant Increasing(q)
      invariant rest <= values
      invariant forall x :: x in q <==> x in values - rest
      invariant forall x, y :: x in q && y in rest ==> x < y
    {
      ghost var least := Least(rest);
      var x :| x in rest && forall y <- rest :: x <= y;
      assert forall k :: 0 <= k < |q| ==> q[k] in q && q[k] < x;
      q, rest := q + [x], rest - {x};
    }
  }

  /** `candidate_day.replace(hour=hour, minute=minute)` */
  function MinuteAt(day: int, hour: int, minute: int): int {
    day * DAY + hour * 60 + minute
  }

  lemma {:induction false} MinuteAtParts(day: int, hour: int, minute: int)
    requires 0 <= hour < 24 && 0 <= minute < 60
    ensures var t := MinuteAt(day, hour, minute);
            DayOf(t) == day && HourOf(t) == hour && MinuteOf(t) == minute
  {
    var k := hour * 60 + minute;
    assert (day * DAY + k) / DAY == day && (day * DAY + k) % DAY == k;
  }

  lemma {:induction false} PartsMinuteAt(t: int)
    ensures MinuteAt(DayOf(t), HourOf(t), MinuteOf(t)) == t
    ensures 0 <= HourOf(t) < 24 && 0 <= MinuteOf(t) < 60
  {
  }

  // ---- the horizon is complete -----------------------------------------------------------

  /** A schedule that selects any day of the unbounded calendar selects one in every window of
      2927 days. */
  lemma {:induction false} SelectedDayRecurs(s: Schedule, day: int, n: int) returns (o: int)
    requires Parsed(s) && day >= 1 && n >= 1 && DayChosen(s, day)
    ensures n <= o <= n + 2926 && DayChosen(s, o)
  {
    var d := DateOf(day);
    OrdinalOfDateOf(day);
    if !s.dayOfMonth.isStarred && d.day in s.dayOfMonth.values {
      o := Recurs(d.month, d.day, n);
      if s.dayOfWeek.isStarred { return; }
    } else {
      o := WeekdayRecurs(d.month, day % 7, n);
      SameWeekday(day, o);
    }
  }

  lemma {:induction false} SameWeekday(a: int, b: int)
    requires a >= 1 && b >= 1 && a % 7 == b % 7
    ensures Weekday(a) == Weekday(b)
  {
    WeekdayClosed(a);
    WeekdayClosed(b);
  }

  /** If the days after `start` the search visits hold no selected minute, none is selected ever. */
  lemma {:induction false} HorizonComplete(s: Schedule, start: int, threshold: int, day: int)
    requires Parsed(s) && start >= 1 && day >= 1
    requires start * DAY <= threshold < (start + 1) * DAY
    requires NoneBetween(s, threshold, (start + MAX_SEARCH_DAYS + 1) * DAY)
    ensures !DayChosen(s, day)
  {
    if DayChosen(s, day) {
      var o := SelectedDayRecurs(s, day, start + 1);
      var hour := Member(s.hour.values);
      var minute := Member(s.minute.values);
      MinuteAtParts(o, hour, minute);
      assert Chosen(s, MinuteAt(o, hour, minute));
      assert false;
    }
  }

  // ---- the search ------------------------------------------------------------------------

  /** Every candidate in the first `n` hours lies before the threshold. */
  ghost predicate AllBefore(day: int, hours: seq<int>, n: int, minutes: set<int>, threshold: int)
    requires 0 <= n <= |hours|
  {
    forall k, m :: 0 <= k < n && m in minutes ==> MinuteAt(day, hours[k], m) < threshold
  }

  lemma {:induction false} DayPassed(s: Schedule, day: int, hours: seq<int>, threshold: int)
    requires day >= 1 && threshold >= DAY && forall h :: h in hours <==> h in s.hour.values
    requires DayChosen(s, day) ==> AllBefore(day, hours, |hours|, s.minute.values, threshold)
    ensures forall u :: threshold <= u && DayOf(u) == day ==> !Chosen(s, u)
  {
    forall u | threshold <= u && DayOf(u) == day ensures !Chosen(s, u) {
      PartsMinuteAt(u);
      assert Chosen(s, u) ==>
               HourOf(u) in hours && MinuteAt(day, HourOf(u), MinuteOf(u)) < threshold;
    }
  }

  lemma {:induction false} MinutesCovered(s: Schedule, day: int, hour: int, minutes: seq<int>, threshold: int)
    requires forall m :: m in minutes <==> m in s.minute.values
    requires forall k :: 0 <= k < |minutes| ==> MinuteAt(day, hour, minutes[k]) < threshold
    ensures forall m <- s.minute.values :: MinuteAt(day, hour, m) < threshold
  {
  }

  /** The first candidate at or past the threshold, in hour then minute order, is the first
      selected minute of its day. */
  lemma {:induction false} FirstOfDay(s: Schedule, day: int, hours: seq<int>, minutes: seq<int>, i: nat, j: nat,
                   threshold: int)
    requires day >= 1 && threshold >= DAY && i < |hours| && j < |minutes|
    requires Parsed(s) && Increasing(hours) && Increasing(minutes) && DayChosen(s, day)
    requires forall h :: h in hours <==> h in s.hour.values
    requires forall m :: m in minutes <==> m in s.minute.values
    requires AllBefore(day, hours, i, s.minute.values, threshold)
    requires forall k :: 0 <= k < j ==> MinuteAt(day, hours[i], minutes[k]) < threshold
    requires threshold <= MinuteAt(day, hours[i], minutes[j])
    ensures var t := MinuteAt(day, hours[i], minutes[j]);
            && DayOf(t) == day && Chosen(s, t)
            && forall u :: threshold <= u < t && DayOf(u) == day ==> !Chosen(s, u)
  {
    var t := MinuteAt(day, hours[i], minutes[j]);
    assert hours[i] in hours && minutes[j] in minutes;
    MinuteAtParts(day, hours[i], minutes[j]);
    forall u | threshold <= u && DayOf(u) == day && Chosen(s, u) ensures u >= t {
      PartsMinuteAt(u);
      var i' :| 0 <= i' < |hours| && hours[i'] == HourOf(u);
      var j' :| 0 <= j' < |minutes| && minutes[j'] == MinuteOf(u);
    }
  }

  lemma {:induction false} ExtendNone(s: Schedule, threshold: int, day: int, hi: int)
    requires threshold >= DAY && NoneBetween(s, threshold, day * DAY)
    requires forall u :: threshold <= u < hi && DayOf(u) == day ==> !Chosen(s, u)
    requires hi <= (day + 1) * DAY
    ensures NoneBetween(s, threshold, hi)
  {
    forall u | threshold <= u < hi ensures !Chosen(s, u) {
      assert u >= day * DAY ==> DayOf(u) == day;
    }
  }

  /** The first selected minute strictly after the reference minute; the error outcome exactly
      when no day of the whole calendar is selected; an overflow only when the last representable
      day is reached first, nothing selected before it. */
  method NextAfter(s: Schedule, after: Instant) returns (r: Search)
    requires Parsed(s) && after.Valid()
    ensures r.Found? ==> IsNext(s, after.minute, r.at) && DayOf(r.at) <= MAX_ORDINAL
    ensures r.Exhausted? <==> (&& DayOf(after.minute + 1) + 2928 <= MAX_ORDINAL
                               && forall day :: day >= 1 ==> !DayChosen(s, day))
    ensures r.Overflowed? <==> (&& DayOf(after.minute + 1) + 2928 > MAX_ORDINAL
                                && NoneBetween(s, after.minute + 1, (MAX_ORDINAL + 1) * DAY))
  {
    var threshold := after.minute + 1;
    var dayStart := DayOf(threshold);
    if dayStart > MAX_ORDINAL {
      return Overflowed;
    }
    var hours := Sorted(s.hour.values);
    var minutes := Sorted(s.minute.values);
    for offset := 0 to MAX_SEARCH_DAYS + 1
      invariant dayStart + offset - 1 <= MAX_ORDINAL
      invariant NoneBetween(s, threshold, (dayStart + offset) * DAY)
    {
      var day := dayStart + offset;
      if day > MAX_ORDINAL {
        return Overflowed;
      }
      DaySelectedIff(s, day);
      if DateOf(day).month in s.month.values && SelectsDay(s, day) {
        for i := 0 to |hours|
          invariant AllBefore(day, hours, i, s.minute.values, threshold)
        {
          for j := 0 to |minutes|
            invariant forall k :: 0 <= k < j ==> MinuteAt(day, hours[i], minutes[k]) < threshold
          {
            var candidate := MinuteAt(day, hours[i], minutes[j]);
            if candidate >= threshold {
              FirstOfDay(s, day, hours, minutes, i, j, threshold);
              ExtendNone(s, threshold, day, candidate);
              FoundRulesOut(s, after.minute, candidate);
              return Found(candidate);
            }
          }
          MinutesCovered(s, day, hours[i], minutes, threshold);
        }
      }
      DayPassed(s, day, hours, threshold);
      ExtendNone(s, threshold, day, (day + 1) * DAY);
    }
    forall day | day >= 1 ensures !DayChosen(s, day) {
      HorizonComplete(s, dayStart, threshold, day);
    }
    return Exhausted;
  }

  lemma {:induction false} FoundRulesOut(s: Schedule, after: int, t: int)
    requires DAY <= after < t && Chosen(s, t) && DayOf(t) <= MAX_ORDINAL
    ensures DayChosen(s, DayOf(t)) && t < (MAX_ORDINAL + 1) * DAY
    ensures !NoneBetween(s, after + 1, (MAX_ORDINAL + 1) * DAY)
  {
  }

  // ---- iterating the search --------------------------------------------------------------

  /** `fires` is what repeated `next_after` calls return, each from the previous answer. */
  ghost predicate Iterated(s: Schedule, after: int, fires: seq<int>)
    requires after >= DAY
    decreases |fires|
  {
    fires == [] || (IsNext(s, after, fires[0]) && Iterated(s, fires[0], fires[1..]))
  }

  /** Iterating enumerates the selected minutes: in increasing order, every one, no other. */
  lemma {:induction false} IterationEnumerates(s: Schedule, after: int, fires: seq<int>)
    requires after >= DAY && Iterated(s, after, fires)
    ensures Increasing(fires) && forall t <- fires :: t > after
    ensures fires != [] ==>
              forall u :: after < u <= fires[|fires| - 1] ==> (Chosen(s, u) <==> u in fires)
    decreases |fires|
  {
    if fires != [] {
      var rest := fires[1..];
      IterationEnumerates(s, fires[0], rest);
      assert fires == [fires[0]] + rest;
      assert forall k :: 0 <= k < |rest| ==> rest[k] in rest;
      assert rest != [] ==> rest[|rest| - 1] == fires[|fires| - 1];
    }
  }

  /** A later reference never fires earlier, and the answer is unique. */
  lemma {:induction false} NextMonotone(s: Schedule, a: int, b: int, t: int, u: int)
    requires DAY <= a <= b && IsNext(s, a, t) && IsNext(s, b, u)
    ensures t <= u
    ensures a == b ==> t == u
    ensures b < t ==> t == u
  {
  }
}
