/**
 What the deadline calculator computes, told by counting working time one
 nanosecond at a time. All instants here are wall-clock instants of the
 calendar's zone.
 */
module WorkingTime {
  import opened Prelude
  import opened BusinessTime
  import opened WorkingCalendars

  /** The nanosecond that starts at `local` belongs to the working window of its day. */
  predicate IsWorkingInstant(cal: Calendar, local: Instant) {
    && IsWorkingDay(cal, DateOf(local))
    && DayStart(cal, DateOf(local)) <= local < At(DateOf(local), cal.endMin)
  }

  /** How many nanoseconds of [a, b) are working ones. */
  function Worked(cal: Calendar, a: Instant, b: Instant): nat
    decreases b - a
  {
    if b <= a then 0
    else Worked(cal, a, b - 1) + if IsWorkingInstant(cal, b - 1) then 1 else 0
  }

  lemma {:induction false} WorkedSplit(cal: Calendar, a: Instant, b: Instant, c: Instant)
    requires a <= b <= c
    ensures Worked(cal, a, c) == Worked(cal, a, b) + Worked(cal, b, c)
    decreases c - b
  {
    if b < c {
      WorkedSplit(cal, a, b, c - 1);
    }
  }

  lemma {:induction false} WorkedAll(cal: Calendar, a: Instant, b: Instant)
    requires a <= b && forall t :: a <= t < b ==> IsWorkingInstant(cal, t)
    ensures Worked(cal, a, b) == b - a
    decreases b - a
  {
    if a < b {
      WorkedAll(cal, a, b - 1);
    }
  }

  lemma {:induction false} WorkedNone(cal: Calendar, a: Instant, b: Instant)
    requires forall t :: a <= t < b ==> !IsWorkingInstant(cal, t)
    ensures Worked(cal, a, b) == 0
    decreases b - a
  {
    if a < b {
      WorkedNone(cal, a, b - 1);
    }
  }

  lemma SameDay(a: Instant, t: Instant)
    requires a <= t < Midnight(DateOf(a) + 1)
    ensures DateOf(t) == DateOf(a)
  {
  }

  lemma WindowToday(cal: Calendar, cursor: Instant, t: Instant)
    requires cal.Usable() && cursor <= t < Midnight(DateOf(cursor) + 1)
    ensures IsWorkingInstant(cal, t) <==> Opened(cal, cursor) <= t < Opened(cal, cursor) + TimeLeft(cal, cursor)
  {
    SameDay(cursor, t);
  }

  /** The working time left on a day starts at its opening and has no gaps. */
  lemma WorkedSoFar(cal: Calendar, cursor: Instant, b: Instant)
    requires cal.Usable() && Opened(cal, cursor) <= b <= Opened(cal, cursor) + TimeLeft(cal, cursor)
    ensures Worked(cal, cursor, b) == b - Opened(cal, cursor)
  {
    var open := Opened(cal, cursor);
    forall t | cursor <= t < b ensures IsWorkingInstant(cal, t) <==> open <= t {
      WindowToday(cal, cursor, t);
    }
    WorkedNone(cal, cursor, open);
    WorkedAll(cal, open, b);
    WorkedSplit(cal, cursor, open, b);
  }

  lemma WorkedToday(cal: Calendar, cursor: Instant)
    requires cal.Usable()
    ensures Worked(cal, cursor, Midnight(DateOf(cursor) + 1)) == TimeLeft(cal, cursor)
  {
    var closing, midnight := Opened(cal, cursor) + TimeLeft(cal, cursor), Midnight(DateOf(cursor) + 1);
    WorkedSoFar(cal, cursor, closing);
    assert closing <= midnight;
    forall t | closing <= t < midnight ensures !IsWorkingInstant(cal, t) {
      WindowToday(cal, cursor, t);
    }
    WorkedNone(cal, closing, midnight);
    WorkedSplit(cal, cursor, closing, midnight);
  }

  /** Nothing is worked between midnight and the opening, and a full day holds whole minutes. */
  lemma WorkedFromOpening(cal: Calendar, date: Date, b: Instant)
    requires cal.Usable() && DayStart(cal, date) <= b
    ensures Worked(cal, Midnight(date), b) == Worked(cal, DayStart(cal, date), b)
    ensures TimeLeft(cal, DayStart(cal, date)) % MINUTE == 0
  {
    DateOfAt(date, cal.startMin);
    forall t | Midnight(date) <= t < DayStart(cal, date) ensures !IsWorkingInstant(cal, t) {
      assert DateOf(Midnight(date)) == date;
      SameDay(Midnight(date), t);
    }
    WorkedNone(cal, Midnight(date), DayStart(cal, date));
    WorkedSplit(cal, Midnight(date), DayStart(cal, date), b);
    assert TimeLeft(cal, DayStart(cal, date)) == 0
        || TimeLeft(cal, DayStart(cal, date)) == (cal.endMin - cal.startMin) * MINUTE;
  }

  /** The days from the cursor's to `horizon`, split after the first one. */
  lemma WorkedByDays(cal: Calendar, cursor: Instant, b: Instant)
    requires cal.Usable() && DayStart(cal, DateOf(cursor) + 1) <= b
    ensures Worked(cal, cursor, b) == TimeLeft(cal, cursor) + Worked(cal, DayStart(cal, DateOf(cursor) + 1), b)
  {
    WorkedSplit(cal, cursor, Midnight(DateOf(cursor) + 1), b);
    WorkedToday(cal, cursor);
    WorkedFromOpening(cal, DateOf(cursor) + 1, b);
  }

  /** Working time until the first midnight the guarded loop cannot reach. */
  function Capacity(cal: Calendar, cursor: Instant, horizon: Date): nat {
    Worked(cal, cursor, Midnight(horizon))
  }

  lemma CapacityByDays(cal: Calendar, cursor: Instant, horizon: Date)
    requires cal.Usable() && DateOf(cursor) < horizon
    ensures Capacity(cal, cursor, horizon)
         == TimeLeft(cal, cursor) + Capacity(cal, DayStart(cal, DateOf(cursor) + 1), horizon)
  {
    var next := DateOf(cursor) + 1;
    if next < horizon {
      WorkedByDays(cal, cursor, Midnight(horizon));
    } else {
      WorkedToday(cal, cursor);
    }
  }

  lemma {:induction false} CapacityInMinutes(cal: Calendar, date: Date, horizon: Date)
    requires cal.Usable()
    ensures Capacity(cal, DayStart(cal, date), horizon) % MINUTE == 0
    decreases horizon - date
  {
    hide TimeLeft, DateOf, Opened, IsWorkingDay;
    DateOfAt(date, cal.startMin);
    if date < horizon {
      CapacityByDays(cal, DayStart(cal, date), horizon);
      CapacityInMinutes(cal, date + 1, horizon);
      WorkedFromOpening(cal, date, DayStart(cal, date));
    }
  }

  /** The part of a minute lost on the first day, when the work does not fit into the whole minutes left of it. */
  function Lost(cal: Calendar, cursor: Instant, minutes: int): int {
    if minutes <= MinutesLeft(cal, cursor) then 0 else TimeLeft(cal, cursor) % MINUTE
  }

  /** `r` is where `minutes` working minutes after `cursor` are over, and not one nanosecond later. */
  ghost predicate EndsExactly(cal: Calendar, cursor: Instant, minutes: int, r: Instant) {
    && cursor < r
    && Worked(cal, cursor, r) == minutes * MINUTE + Lost(cal, cursor, minutes)
    && IsWorkingInstant(cal, r - 1)
  }

  /** What the calculator owes for a cursor, be it within its guard or not. */
  ghost predicate Exact(cal: Calendar, cursor: Instant, minutes: int, horizon: Date, r: Instant) {
    if Capacity(cal, cursor, horizon) >= minutes * MINUTE then EndsExactly(cal, cursor, minutes, r) && DateOf(r) < horizon
    else r == DayStart(cal, horizon)
  }

  lemma {:induction false} AdvanceIsExact(cal: Calendar, cursor: Instant, remaining: int, horizon: Date)
    requires cal.Usable() && remaining > 0 && DateOf(cursor) <= horizon
    requires DateOf(cursor) == horizon ==> cursor == DayStart(cal, horizon)
    ensures Exact(cal, cursor, remaining, horizon, Advance(cal, cursor, remaining, horizon))
    decreases horizon - DateOf(cursor)
  {
    if DateOf(cursor) == horizon {
      CapacityInMinutes(cal, horizon, horizon);
      assert Capacity(cal, cursor, horizon) == 0;
    } else if remaining <= MinutesLeft(cal, cursor) {
      CapacityByDays(cal, cursor, horizon);
      FitsToday(cal, cursor, remaining);
    } else {
      var next := DayStart(cal, DateOf(cursor) + 1);
      DateOfAt(DateOf(cursor) + 1, cal.startMin);
      AdvanceIsExact(cal, next, remaining - MinutesLeft(cal, cursor), horizon);
      var r := Advance(cal, next, remaining - MinutesLeft(cal, cursor), horizon);
      ExactFromNextDay(cal, cursor, remaining, horizon, r);
    }
  }

  lemma ExactFromNextDay(cal: Calendar, cursor: Instant, remaining: int, horizon: Date, r: Instant)
    requires cal.Usable() && remaining > MinutesLeft(cal, cursor) && DateOf(cursor) < horizon
    requires Exact(cal, DayStart(cal, DateOf(cursor) + 1), remaining - MinutesLeft(cal, cursor), horizon, r)
    ensures Exact(cal, cursor, remaining, horizon, r)
  {
    hide TimeLeft, IsWorkingDay, Worked, Opened;
    var next := DayStart(cal, DateOf(cursor) + 1);
    DateOfAt(DateOf(cursor) + 1, cal.startMin);
    CapacityByDays(cal, cursor, horizon);
    CapacityInMinutes(cal, DateOf(cursor) + 1, horizon);
    if Capacity(cal, next, horizon) >= (remaining - MinutesLeft(cal, cursor)) * MINUTE {
      WorkedByDays(cal, cursor, r);
      WorkedFromOpening(cal, DateOf(cursor) + 1, next);
    }
  }

  lemma FitsToday(cal: Calendar, cursor: Instant, minutes: int)
    requires cal.Usable() && 0 < minutes <= MinutesLeft(cal, cursor)
    ensures EndsExactly(cal, cursor, minutes, Opened(cal, cursor) + minutes * MINUTE)
    ensures DateOf(Opened(cal, cursor) + minutes * MINUTE) == DateOf(cursor)
  {
    var r := Opened(cal, cursor) + minutes * MINUTE;
    WorkedSoFar(cal, cursor, r);
    WindowToday(cal, cursor, r - 1);
    SameDay(cursor, r);
    SameDay(cursor, r - 1);
  }

  // ---- Main results about the calculator ----

  /** The 366 guarded days hold `minutes` working minutes after `from`. */
  predicate Fits(cal: Calendar, from: Instant, minutes: int) {
    Capacity(cal, from + cal.offset, Horizon(cal, from)) >= minutes * MINUTE
  }

  /**
   Exactness: within the guard the result is the least instant that leaves
   behind the requested working time plus the part of a minute lost on the
   first day; outside it, the result is the opening after the guarded days.
   */
  lemma AddWorkingIsExact(cal: Calendar, from: Instant, minutes: int)
    requires cal.Usable() && minutes > 0
    ensures var a, r := from + cal.offset, AddWorking(cal, from, minutes) + cal.offset;
            if Fits(cal, from, minutes) then
              && a < r
              && Worked(cal, a, r) == minutes * MINUTE + Lost(cal, a, minutes)
              && minutes * MINUTE <= Worked(cal, a, r) < (minutes + 1) * MINUTE
              && (forall t :: a <= t < r ==> Worked(cal, a, t) < Worked(cal, a, r))
            else r == DayStart(cal, DateOf(a) + 366)
  {
    var a := from + cal.offset;
    var r := Advance(cal, a, minutes, Horizon(cal, from));
    AdvanceIsExact(cal, a, minutes, Horizon(cal, from));
    if Fits(cal, from, minutes) {
      forall t | a <= t < r ensures Worked(cal, a, t) < Worked(cal, a, r) {
        WorkedSplit(cal, a, t, r - 1);
      }
    }
  }

  /** Nothing is lost exactly if the work fits into the first day or that day has no broken minute left. */
  lemma NothingLostExactlyWhen(cal: Calendar, from: Instant, minutes: int)
    requires cal.Usable() && minutes > 0 && Fits(cal, from, minutes)
    ensures var a, r := from + cal.offset, AddWorking(cal, from, minutes) + cal.offset;
            && (Worked(cal, a, r) == minutes * MINUTE <==>
                minutes <= MinutesLeft(cal, a) || TimeLeft(cal, a) % MINUTE == 0)
            && (DateOf(r) == DateOf(a) <==> minutes <= MinutesLeft(cal, a))
  {
    AddWorkingIsExact(cal, from, minutes);
    EndsOnFirstDay(cal, from + cal.offset, minutes, Horizon(cal, from));
  }

  lemma EndsOnFirstDay(cal: Calendar, cursor: Instant, minutes: int, horizon: Date)
    requires cal.Usable() && minutes > 0 && DateOf(cursor) < horizon
    ensures DateOf(Advance(cal, cursor, minutes, horizon)) == DateOf(cursor) <==> minutes <= MinutesLeft(cal, cursor)
  {
    if minutes <= MinutesLeft(cal, cursor) {
      FitsToday(cal, cursor, minutes);
    } else {
      var next := DayStart(cal, DateOf(cursor) + 1);
      AdvanceByOneDay(cal, cursor, minutes, horizon);
      AdvanceNeverGoesBack(cal, next, minutes - MinutesLeft(cal, cursor), horizon);
      DateOfAt(DateOf(cursor) + 1, cal.startMin);
    }
  }

  // ---- Rounding the start up, as documented ----

  function RoundedUp(local: Instant): Instant {
    local + (-local) % MINUTE
  }

  /** Before the opening, rounding up does not pass it; after it, it costs exactly the broken minute. */
  lemma RoundedWithinDay(cal: Calendar, a: Instant)
    requires cal.Usable() && DateOf(RoundedUp(a)) == DateOf(a)
    ensures Opened(cal, a) != a ==> Opened(cal, RoundedUp(a)) == Opened(cal, a)
    ensures Opened(cal, a) == a ==> Opened(cal, RoundedUp(a)) == RoundedUp(a)
    ensures MinutesLeft(cal, RoundedUp(a)) == MinutesLeft(cal, a)
  {
    var opening, closing := DayStart(cal, DateOf(a)), At(DateOf(a), cal.endMin);
    AtIsWhole(DateOf(a), cal.startMin);
    AtIsWhole(DateOf(a), cal.endMin);
    if a <= opening {
      NothingBetween(a, opening);
    }
    if a <= closing {
      NothingBetween(a, closing);
      BrokenMinute(a, closing);
    }
  }

  lemma WholeIsMultiple(t: Instant)
    ensures t % MINUTE == 0 <==> t == MINUTE * (t / MINUTE)
  {
  }

  lemma RoundedIsWhole(a: Instant)
    ensures RoundedUp(a) == MINUTE * -((-a) / MINUTE)
    ensures a <= RoundedUp(a) < a + MINUTE
  {
    assert -a == MINUTE * ((-a) / MINUTE) + (-a) % MINUTE;
  }

  /** No full minute lies between an instant and the next one. */
  lemma NothingBetween(a: Instant, whole: Instant)
    requires whole % MINUTE == 0 && a <= whole
    ensures a <= RoundedUp(a) <= whole && RoundedUp(a) % MINUTE == 0
  {
    RoundedIsWhole(a);
    WholeIsMultiple(whole);
    WholeIsMultiple(RoundedUp(a));
    var up, mark := -((-a) / MINUTE), whole / MINUTE;
    hide RoundedUp;
    assert MINUTE * up < MINUTE * (mark + 1);
    assert up <= mark;
  }

  lemma BrokenMinute(a: Instant, whole: Instant)
    requires whole % MINUTE == 0 && a <= whole
    ensures (whole - RoundedUp(a)) / MINUTE == (whole - a) / MINUTE
  {
  }

  /** Rounding up to the next day can only happen after the closing. */
  lemma RoundedToMidnight(cal: Calendar, a: Instant)
    requires cal.Usable() && DateOf(RoundedUp(a)) != DateOf(a)
    ensures RoundedUp(a) == Midnight(DateOf(a) + 1) && DateOf(RoundedUp(a)) == DateOf(a) + 1
    ensures TimeLeft(cal, a) == 0 && Opened(cal, RoundedUp(a)) == DayStart(cal, DateOf(a) + 1)
  {
    AtIsWhole(DateOf(a) + 1, 0);
    NothingBetween(a, At(DateOf(a) + 1, 0));
  }

  /**
   The start counts as if it had been rounded up to a minute exactly if it is a
   full minute, or lies before the opening, or the work exceeds the whole
   minutes left of the day. In every other case the result is early by the rest
   of the minute.
   */
  lemma RoundedExactlyWhen(cal: Calendar, from: Instant, minutes: int)
    requires cal.Usable() && minutes > 0 && Fits(cal, from, minutes)
    ensures var a := from + cal.offset;
            var rounded := AddWorking(cal, RoundedUp(a) - cal.offset, minutes);
            && (rounded == AddWorking(cal, from, minutes) <==>
                a % MINUTE == 0 || Opened(cal, a) != a || minutes > MinutesLeft(cal, a))
            && (rounded == AddWorking(cal, from, minutes) || rounded == AddWorking(cal, from, minutes) + (-a) % MINUTE)
  {
    hide TimeLeft, Opened, Advance, DateOf, Worked, Fits;
    var a := from + cal.offset;
    if DateOf(RoundedUp(a)) == DateOf(a) {
      RoundedWithinDay(cal, a);
      AdvanceByOneDay(cal, a, minutes, Horizon(cal, from));
      AdvanceByOneDay(cal, RoundedUp(a), minutes, Horizon(cal, from));
      RoundedIsFixed(a);
    } else {
      RoundedPastMidnight(cal, from, minutes);
    }
  }

  lemma RoundedIsFixed(a: Instant)
    ensures RoundedUp(a) == a <==> a % MINUTE == 0
  {
  }

  lemma RoundedPastMidnight(cal: Calendar, from: Instant, minutes: int)
    requires cal.Usable() && minutes > 0 && Fits(cal, from, minutes)
    requires DateOf(RoundedUp(from + cal.offset)) != DateOf(from + cal.offset)
    ensures var a := from + cal.offset;
            minutes > MinutesLeft(cal, a) && AddWorking(cal, RoundedUp(a) - cal.offset, minutes) == AddWorking(cal, from, minutes)
  {
    hide Worked, TimeLeft, Opened;
    var a := from + cal.offset;
    var next, horizon := DayStart(cal, DateOf(a) + 1), Horizon(cal, from);
    RoundedToMidnight(cal, a);
    AdvanceByOneDay(cal, a, minutes, horizon);
    FitsFromNextDay(cal, a, minutes, horizon);
    AdvanceFromOpened(cal, RoundedUp(a), minutes, horizon + 1);
    MoreDaysChangeNothing(cal, next, minutes, horizon, horizon + 1);
  }

  /** Half an hour from half a minute past nine is over at half past nine and half a minute, not at 09:31. */
  lemma StartIsNotRounded()
    ensures AddWorking(NINE_TO_SIX, At(0, 540) + HALF_MINUTE, 30) == At(0, 570) + HALF_MINUTE
    ensures RoundedUp(At(0, 540) + HALF_MINUTE) == At(0, 541)
    ensures AddWorking(NINE_TO_SIX, At(0, 541), 30) == At(0, 571)
  {
    EveryDayIsWorked(0);
    AdvanceByOneDay(NINE_TO_SIX, At(0, 540) + HALF_MINUTE, 30, GUARD_DAYS);
    AdvanceByOneDay(NINE_TO_SIX, At(0, 541), 30, GUARD_DAYS);
  }

  /** Nothing is lost from a start on a full minute of the clock. */
  lemma NothingLostFromFullMinute(cal: Calendar, from: Instant, minutes: int)
    requires cal.Usable() && minutes > 0 && Fits(cal, from, minutes)
    requires (from + cal.offset) % MINUTE == 0
    ensures var a, r := from + cal.offset, AddWorking(cal, from, minutes) + cal.offset;
            && Worked(cal, a, r) == minutes * MINUTE
            && forall t :: a <= t < r ==> Worked(cal, a, t) < minutes * MINUTE
  {
    var a, r := from + cal.offset, AddWorking(cal, from, minutes) + cal.offset;
    hide TimeLeft, AddWorking, Worked, Fits;
    AddWorkingIsExact(cal, from, minutes);
    WholeMinutesLeft(cal, a);
    assert Lost(cal, a, minutes) == 0;
  }

  /** Nine to six on every day of the week. */
  const NINE_TO_SIX := Calendar(0, 127, 540, 1080, {}, {})

  const HALF_MINUTE := 30_000_000_000

  /** Ten hours from half a minute past nine are half a minute late. */
  lemma HalfMinuteIsLost()
    ensures var from := At(0, 540) + HALF_MINUTE;
            Worked(NINE_TO_SIX, from, AddWorking(NINE_TO_SIX, from, 600)) == 600 * MINUTE + HALF_MINUTE
  {
    hide AddWorking, Worked, Fits, TimeLeft, Opened, IsWorkingDay;
    var from := At(0, 540) + HALF_MINUTE;
    TenHoursFit(from);
    AddWorkingIsExact(NINE_TO_SIX, from, 600);
  }

  /** From half a minute past seven they end on the next day as well, and nothing is lost. */
  lemma HalfMinuteIsNotLost()
    ensures var from := At(0, 420) + HALF_MINUTE;
            && Worked(NINE_TO_SIX, from, AddWorking(NINE_TO_SIX, from, 600)) == 600 * MINUTE
            && DateOf(AddWorking(NINE_TO_SIX, from, 600)) != DateOf(from)
  {
    hide AddWorking, Worked, Fits, TimeLeft, Opened, IsWorkingDay;
    var from := At(0, 420) + HALF_MINUTE;
    TenHoursFit(from);
    NothingLostExactlyWhen(NINE_TO_SIX, from, 600);
  }

  /** Nine to midnight is a valid calendar, and the calculator panics on it from any start, whatever there is to add. */
  method NineToMidnight(from: Instant, minutes: int) returns (cal: Calendar, r: Option<Instant>)
    requires minutes > 0
    ensures New(0, 127, 540, 1440, {}, {}) == Ok(cal)
    ensures r.None?
  {
    cal := New(0, 127, 540, 1440, {}, {}).value;
    MaskSelectsItsDays(cal, [true, true, true, true, true, true, true], 0, DateOf(from));
    r := AddWorkingDuration(cal, from, minutes);
    assert IsWorkingDay(cal, DateOf(from + cal.offset));
  }

  lemma EveryDayIsWorked(date: Date)
    ensures IsWorkingDay(NINE_TO_SIX, date)
  {
    var week := [true, true, true, true, true, true, true];
    MaskSelectsItsDays(NINE_TO_SIX, week, 0, date);
  }

  lemma LeftToday(from: Instant)
    requires 0 <= from < At(0, 541)
    ensures DateOf(from) == 0
    ensures TimeLeft(NINE_TO_SIX, from) == At(0, 1080) - if from < At(0, 540) then At(0, 540) else from
  {
    EveryDayIsWorked(0);
  }

  lemma LeftTomorrow()
    ensures var next := DayStart(NINE_TO_SIX, 1); DateOf(next) == 1 && TimeLeft(NINE_TO_SIX, next) == 540 * MINUTE
  {
    EveryDayIsWorked(1);
    DateOfAt(1, NINE_TO_SIX.startMin);
  }

  lemma TenHoursFit(from: Instant)
    requires 0 <= from < At(0, 541)
    ensures Fits(NINE_TO_SIX, from, 600)
    ensures TimeLeft(NINE_TO_SIX, from) == At(0, 1080) - if from < At(0, 540) then At(0, 540) else from
  {
    hide TimeLeft, DateOf, Capacity, Opened, IsWorkingDay;
    LeftToday(from);
    LeftTomorrow();
    CapacityByDays(NINE_TO_SIX, from, GUARD_DAYS);
    CapacityByDays(NINE_TO_SIX, DayStart(NINE_TO_SIX, 1), GUARD_DAYS);
  }

  lemma WholeMinutesLeft(cal: Calendar, cursor: Instant)
    requires cursor % MINUTE == 0
    ensures TimeLeft(cal, cursor) % MINUTE == 0
  {
    hide At, DateOf;
    var opening, closing := DayStart(cal, DateOf(cursor)), At(DateOf(cursor), cal.endMin);
    AtIsWhole(DateOf(cursor), cal.startMin);
    AtIsWhole(DateOf(cursor), cal.endMin);
    WholeDifference(opening, closing);
    WholeDifference(cursor, closing);
  }

  lemma WholeDifference(a: Instant, b: Instant)
    requires a % MINUTE == 0 && b % MINUTE == 0
    ensures (b - a) % MINUTE == 0
  {
  }

  lemma AtIsWhole(date: Date, minute: int)
    ensures At(date, minute) % MINUTE == 0
  {
    assert At(date, minute) == MINUTE * (date * MINUTES_IN_DAY + minute);
  }

  // ---- How much the guard holds ----

  /** Seven days in a row of a calendar with a working weekday and no exceptions hold a full window. */
  lemma WeekHoldsWindow(cal: Calendar, date: Date, works: Date)
    requires cal.Usable() && cal.holidays == {} && cal.extraDays == {} && IsWorkingDay(cal, works)
    ensures Worked(cal, Midnight(date), Midnight(date + 7)) >= (cal.endMin - cal.startMin) * MINUTE
  {
    var day := date + (works - date) % 7;
    assert Weekday(day) == Weekday(works);
    WorkedSplit(cal, Midnight(date), Midnight(day), Midnight(date + 7));
    WorkedSplit(cal, Midnight(day), Midnight(day + 1), Midnight(date + 7));
    FullDay(cal, day);
  }

  lemma FullDay(cal: Calendar, day: Date)
    requires cal.Usable() && IsWorkingDay(cal, day)
    ensures Worked(cal, Midnight(day), Midnight(day + 1)) == (cal.endMin - cal.startMin) * MINUTE
  {
    assert DateOf(Midnight(day)) == day;
    WorkedToday(cal, Midnight(day));
  }

  lemma {:induction false} WeeksHoldWindows(cal: Calendar, date: Date, works: Date, weeks: nat)
    requires cal.Usable() && cal.holidays == {} && cal.extraDays == {} && IsWorkingDay(cal, works)
    ensures Worked(cal, Midnight(date), Midnight(date + 7 * weeks)) >= weeks * ((cal.endMin - cal.startMin) * MINUTE)
  {
    hide IsWorkingDay, Worked;
    if weeks > 0 {
      WeeksHoldWindows(cal, date, works, weeks - 1);
      WeekHoldsWindow(cal, date + 7 * (weeks - 1), works);
      WorkedSplit(cal, Midnight(date), Midnight(date + 7 * (weeks - 1)), Midnight(date + 7 * weeks));
    }
  }

  /** So the guard holds 52 windows of any calendar that has a working weekday and no exceptions. */
  lemma GuardHoldsYear(cal: Calendar, from: Instant, works: Date, minutes: int)
    requires cal.Usable() && cal.holidays == {} && cal.extraDays == {} && IsWorkingDay(cal, works)
    requires minutes <= 52 * (cal.endMin - cal.startMin)
    ensures Fits(cal, from, minutes)
  {
    hide IsWorkingDay, Worked;
    var a := from + cal.offset;
    var first, horizon := DateOf(a) + 1, Horizon(cal, from);
    NextMidnight(a);
    WeeksHoldWindows(cal, first, works, 52);
    WorkedSplit(cal, a, Midnight(first), Midnight(horizon));
    WorkedSplit(cal, Midnight(first), Midnight(first + 364), Midnight(horizon));
  }

  lemma NextMidnight(a: Instant)
    ensures a < Midnight(DateOf(a) + 1)
  {
  }

  // ---- Order and composition ----

  lemma {:induction false} AdvanceNeverGoesBack(cal: Calendar, cursor: Instant, remaining: int, horizon: Date)
    requires cal.Usable() && remaining > 0
    ensures cursor <= Advance(cal, cursor, remaining, horizon)
    ensures DateOf(cursor) < horizon ==>
              DayStart(cal, DateOf(cursor)) <= Advance(cal, cursor, remaining, horizon)
    decreases horizon - DateOf(cursor)
  {
    DateOfAt(DateOf(cursor) + 1, cal.startMin);
    if DateOf(cursor) < horizon && remaining > MinutesLeft(cal, cursor) {
      AdvanceNeverGoesBack(cal, DayStart(cal, DateOf(cursor) + 1), remaining - MinutesLeft(cal, cursor), horizon);
    }
  }

  /** The time before the opening of the first day makes no difference. */
  lemma AdvanceFromOpened(cal: Calendar, cursor: Instant, remaining: int, horizon: Date)
    requires cal.Usable() && remaining > 0 && DateOf(cursor) < horizon
    ensures DateOf(Opened(cal, cursor)) == DateOf(cursor)
    ensures Opened(cal, Opened(cal, cursor)) == Opened(cal, cursor)
    ensures Advance(cal, Opened(cal, cursor), remaining, horizon) == Advance(cal, cursor, remaining, horizon)
  {
    DateOfAt(DateOf(cursor), cal.startMin);
  }

  /** Two opened cursors keep their order, whichever of them has more to do or fewer days to do it in. */
  lemma {:induction false} OpenedKeepOrder(
    cal: Calendar, a: Instant, m: int, horizonA: Date, b: Instant, n: int, horizonB: Date)
    requires cal.Usable() && 0 < m <= n && a <= b && horizonA <= horizonB
    requires Opened(cal, a) == a && Opened(cal, b) == b
    ensures Advance(cal, a, m, horizonA) <= Advance(cal, b, n, horizonB)
    decreases horizonA - DateOf(a)
  {
    AdvanceNeverGoesBack(cal, b, n, horizonB);
    if DateOf(a) >= horizonA {
    } else if m <= MinutesLeft(cal, a) {
      EndsByClosing(cal, a, m);
      if DateOf(b) == DateOf(a) && n > MinutesLeft(cal, b) {
        DateOfAt(DateOf(b) + 1, cal.startMin);
        AdvanceNeverGoesBack(cal, DayStart(cal, DateOf(b) + 1), n - MinutesLeft(cal, b), horizonB);
      }
    } else {
      var next := DayStart(cal, DateOf(a) + 1);
      DateOfAt(DateOf(a) + 1, cal.startMin);
      if DateOf(b) == DateOf(a) {
        OpenedKeepOrder(cal, next, m - MinutesLeft(cal, a), horizonA, next, n - MinutesLeft(cal, b), horizonB);
      } else {
        OpenedKeepOrder(cal, next, m - MinutesLeft(cal, a), horizonA, b, n, horizonB);
      }
    }
  }

  lemma EndsByClosing(cal: Calendar, cursor: Instant, minutes: int)
    requires cal.Usable() && 0 < minutes <= MinutesLeft(cal, cursor)
    ensures Opened(cal, cursor) + minutes * MINUTE <= At(DateOf(cursor), cal.endMin) < Midnight(DateOf(cursor) + 1)
  {
  }

  lemma OpeningsKeepOrder(cal: Calendar, a: Instant, b: Instant)
    requires a <= b
    ensures Opened(cal, a) <= Opened(cal, b) && DateOf(a) <= DateOf(b)
  {
  }

  /** Later starts and longer durations never give an earlier result, guard or no guard. */
  lemma AddWorkingIsMonotone(cal: Calendar, from: Instant, minutes: int, laterFrom: Instant, moreMinutes: int)
    requires cal.Usable() && from <= laterFrom && minutes <= moreMinutes
    ensures from <= AddWorking(cal, from, minutes) <= AddWorking(cal, laterFrom, moreMinutes)
  {
    hide Opened, TimeLeft, IsWorkingDay;
    var a, b := from + cal.offset, laterFrom + cal.offset;
    if minutes > 0 {
      hide Advance;
      OpeningsKeepOrder(cal, a, b);
      AdvanceNeverGoesBack(cal, a, minutes, Horizon(cal, from));
      AdvanceFromOpened(cal, a, minutes, Horizon(cal, from));
      AdvanceFromOpened(cal, b, moreMinutes, Horizon(cal, laterFrom));
      OpenedKeepOrder(cal, Opened(cal, a), minutes, Horizon(cal, from),
                      Opened(cal, b), moreMinutes, Horizon(cal, laterFrom));
    } else if moreMinutes > 0 {
      AdvanceNeverGoesBack(cal, b, moreMinutes, Horizon(cal, laterFrom));
    }
  }

  /** A larger guard changes nothing once the work fits. */
  lemma {:induction false} MoreDaysChangeNothing(cal: Calendar, cursor: Instant, m: int, horizon: Date, more: Date)
    requires cal.Usable() && m > 0 && DateOf(cursor) < horizon <= more
    requires Capacity(cal, cursor, horizon) >= m * MINUTE
    ensures Advance(cal, cursor, m, more) == Advance(cal, cursor, m, horizon)
    decreases horizon - DateOf(cursor)
  {
    if m > MinutesLeft(cal, cursor) {
      FitsFromNextDay(cal, cursor, m, horizon);
      MoreDaysChangeNothing(cal, DayStart(cal, DateOf(cursor) + 1), m - MinutesLeft(cal, cursor), horizon, more);
    }
  }

  lemma FitsFromNextDay(cal: Calendar, cursor: Instant, m: int, horizon: Date)
    requires cal.Usable() && m > MinutesLeft(cal, cursor) && DateOf(cursor) < horizon
    requires Capacity(cal, cursor, horizon) >= m * MINUTE
    ensures var next := DayStart(cal, DateOf(cursor) + 1);
            && DateOf(next) == DateOf(cursor) + 1 < horizon
            && Capacity(cal, next, horizon) >= (m - MinutesLeft(cal, cursor)) * MINUTE
  {
    DateOfAt(DateOf(cursor) + 1, cal.startMin);
    CapacityByDays(cal, cursor, horizon);
    CapacityInMinutes(cal, DateOf(cursor) + 1, horizon);
  }

  /** After `m` of the minutes left today, exactly the other ones are left. */
  lemma RestOfToday(cal: Calendar, cursor: Instant, m: int)
    requires cal.Usable() && 0 < m <= MinutesLeft(cal, cursor)
    ensures var r := Opened(cal, cursor) + m * MINUTE;
            && DateOf(r) == DateOf(cursor)
            && Opened(cal, r) == r
            && MinutesLeft(cal, r) == MinutesLeft(cal, cursor) - m
  {
    var r := Opened(cal, cursor) + m * MINUTE;
    EndsByClosing(cal, cursor, m);
    SameDay(cursor, r);
    assert TimeLeft(cal, r) == TimeLeft(cal, cursor) - m * MINUTE;
  }

  lemma {:induction false} AdvanceComposes(
    cal: Calendar, cursor: Instant, m: int, n: int, horizon: Date, more: Date)
    requires cal.Usable() && m > 0 && n > 0 && DateOf(cursor) < horizon <= more
    requires Capacity(cal, cursor, horizon) >= (m + n) * MINUTE
    ensures Advance(cal, Advance(cal, cursor, m, horizon), n, more) == Advance(cal, cursor, m + n, horizon)
    decreases horizon - DateOf(cursor)
  {
    hide TimeLeft, Capacity, IsWorkingDay;
    var next := DayStart(cal, DateOf(cursor) + 1);
    if m <= MinutesLeft(cal, cursor) {
      RestOfToday(cal, cursor, m);
      if m + n > MinutesLeft(cal, cursor) {
        FitsFromNextDay(cal, cursor, m + n, horizon);
        MoreDaysChangeNothing(cal, next, m + n - MinutesLeft(cal, cursor), horizon, more);
      }
    } else {
      FitsFromNextDay(cal, cursor, m + n, horizon);
      AdvanceComposes(cal, next, m - MinutesLeft(cal, cursor), n, horizon, more);
    }
  }

  /** Adding in two steps is adding at once, for every start whose guard holds the sum. */
  lemma AddWorkingComposes(cal: Calendar, from: Instant, m: nat, n: nat)
    requires cal.Usable() && Fits(cal, from, m + n)
    ensures AddWorking(cal, AddWorking(cal, from, m), n) == AddWorking(cal, from, m + n)
  {
    if m > 0 && n > 0 {
      var middle := AddWorking(cal, from, m);
      AddWorkingIsMonotone(cal, from, m, from, m);
      AdvanceComposes(cal, from + cal.offset, m, n, Horizon(cal, from), Horizon(cal, middle));
    }
  }
}
