/** The working calendar of an organisation and its deadline calculator. */
module WorkingCalendars {
  import opened Prelude
  import opened BusinessTime

  const GUARD_DAYS := 366

  datatype CalendarError = EmptyMask | MinuteOutOfRange | InvertedWindow

  datatype Calendar = Calendar(
    offset: int,
    mask: nat,
    startMin: nat,
    endMin: nat,
    holidays: set<Date>,
    extraDays: set<Date>)
  {
    /** What `New` establishes. */
    predicate Valid() {
      mask != 0 && startMin < endMin <= MINUTES_IN_DAY
    }

    /** `At(day, endMin)` can be read off a clock: 24:00 cannot. */
    predicate Usable() {
      startMin < endMin < MINUTES_IN_DAY
    }
  }

  function New(offset: int, mask: nat, startMin: nat, endMin: nat, holidays: set<Date>, extraDays: set<Date>)
    : (r: Result<Calendar, CalendarError>)
    ensures r.Ok? <==> Calendar(offset, mask, startMin, endMin, holidays, extraDays).Valid()
    ensures r.Ok? ==> r.value == Calendar(offset, mask, startMin, endMin, holidays, extraDays)
  {
    if mask == 0 then Err(EmptyMask)
    else if startMin >= MINUTES_IN_DAY || endMin > MINUTES_IN_DAY then Err(MinuteOutOfRange)
    else if endMin <= startMin then Err(InvertedWindow)
    else Ok(Calendar(offset, mask, startMin, endMin, holidays, extraDays))
  }

  function WeekdayBit(weekday: int): nat
    requires 0 <= weekday < 7
  {
    [1, 2, 4, 8, 16, 32, 64][weekday]
  }

  predicate IsWorkingDay(cal: Calendar, date: Date) {
    if date in cal.extraDays then true
    else if date in cal.holidays then false
    else (cal.mask / WeekdayBit(Weekday(date))) % 2 == 1
  }

  function Bit(on: bool, value: nat): nat {
    if on then value else 0
  }

  /** The mask of a week, Monday first. */
  function MaskOf(week: seq<bool>): nat
    requires |week| == 7
  {
    Bit(week[0], 1) + Bit(week[1], 2) + Bit(week[2], 4) + Bit(week[3], 8)
    + Bit(week[4], 16) + Bit(week[5], 32) + Bit(week[6], 64)
  }

  /**
   The mask of a week selects that week's working days, whatever bits lie
   beyond Sunday's; holidays come off them, and an extra day is worked even if
   it is a holiday as well.
   */
  lemma MaskSelectsItsDays(cal: Calendar, week: seq<bool>, beyond: nat, date: Date)
    requires |week| == 7 && cal.mask == MaskOf(week) + 128 * beyond
    ensures IsWorkingDay(cal, date)
       <==> date in cal.extraDays || (week[Weekday(date)] && date !in cal.holidays)
  {
    BitTellsDay(week, beyond, Weekday(date));
  }

  /** So a valid calendar need not have any working weekday at all. */
  lemma ValidWithoutWorkingDays(offset: int, startMin: nat, endMin: nat, date: Date)
    requires startMin < endMin <= MINUTES_IN_DAY
    ensures var r := New(offset, 128, startMin, endMin, {}, {}); r.Ok? && !IsWorkingDay(r.value, date)
  {
    var never := [false, false, false, false, false, false, false];
    MaskSelectsItsDays(New(offset, 128, startMin, endMin, {}, {}).value, never, 1, date);
  }

  /** The week a mask stands for, Monday first. */
  function WeekOf(mask: nat): (week: seq<bool>)
    ensures |week| == 7
  {
    [mask % 2 == 1, mask / 2 % 2 == 1, mask / 4 % 2 == 1, mask / 8 % 2 == 1,
     mask / 16 % 2 == 1, mask / 32 % 2 == 1, mask / 64 % 2 == 1]
  }

  lemma MaskOfItsWeek(mask: nat)
    ensures mask == MaskOf(WeekOf(mask)) + 128 * (mask / 128)
  {
    hide WeekOf, Bit;
    var week := WeekOf(mask);
    LowHalf(mask, week);
    Sixteenths(mask, week);
    HighHalf(mask / 16, week);
  }

  lemma Sixteenths(mask: nat, week: seq<bool>)
    requires week == WeekOf(mask)
    ensures mask / 16 / 8 == mask / 128
    ensures week[4] == (mask / 16 % 2 == 1) && week[5] == (mask / 16 / 2 % 2 == 1) && week[6] == (mask / 16 / 4 % 2 == 1)
  {
    assert mask / 32 == mask / 16 / 2 && mask / 64 == mask / 16 / 4;
  }

  lemma LowHalf(mask: nat, week: seq<bool>)
    requires week == WeekOf(mask)
    ensures mask == Bit(week[0], 1) + Bit(week[1], 2) + Bit(week[2], 4) + Bit(week[3], 8) + 16 * (mask / 16)
  {
    Split(mask, 1);
    Split(mask, 2);
    Split(mask, 4);
    Split(mask, 8);
    assert Bit(week[1], 2) == 2 * Bit(week[1], 1) && Bit(week[2], 4) == 4 * Bit(week[2], 1) && Bit(week[3], 8) == 8 * Bit(week[3], 1);
    hide Bit;
  }

  lemma HighHalf(rest: nat, week: seq<bool>)
    requires |week| == 7 && week[4] == (rest % 2 == 1) && week[5] == (rest / 2 % 2 == 1) && week[6] == (rest / 4 % 2 == 1)
    ensures 16 * rest == Bit(week[4], 16) + Bit(week[5], 32) + Bit(week[6], 64) + 128 * (rest / 8)
  {
    Split(rest, 1);
    Split(rest, 2);
    Split(rest, 4);
  }

  lemma Split(n: nat, bit: nat)
    requires bit == 1 || bit == 2 || bit == 4 || bit == 8
    ensures n / bit == 2 * (n / (2 * bit)) + Bit(n / bit % 2 == 1, 1)
  {
    assert bit == 1 ==> n / 2 == n / 1 / 2;
    assert bit == 2 ==> n / 4 == n / 2 / 2;
    assert bit == 4 ==> n / 8 == n / 4 / 2;
    assert bit == 8 ==> n / 16 == n / 8 / 2;
  }

  /** A calendar without exceptions has a working day if and only if one of the mask's seven lowest bits is set. */
  lemma WorksExactlyWhen(cal: Calendar)
    requires cal.holidays == {} && cal.extraDays == {}
    ensures (exists date :: IsWorkingDay(cal, date)) <==> cal.mask % 128 != 0
  {
    var week := WeekOf(cal.mask);
    hide MaskOf, WeekOf, IsWorkingDay;
    MaskOfItsWeek(cal.mask);
    MaskIsZero(week);
    forall date ensures IsWorkingDay(cal, date) <==> week[Weekday(date)] {
      MaskSelectsItsDays(cal, week, cal.mask / 128, date);
    }
    if day :| 0 <= day < 7 && week[day] {
      assert Weekday(day - 3) == day;
      assert IsWorkingDay(cal, day - 3);
    }
  }

  lemma MaskIsZero(week: seq<bool>)
    requires |week| == 7
    ensures MaskOf(week) < 128
    ensures MaskOf(week) == 0 <==> forall day :: 0 <= day < 7 ==> !week[day]
  {
    if forall day :: 0 <= day < 7 ==> !week[day] {
      assert !week[0] && !week[1] && !week[2] && !week[3] && !week[4] && !week[5] && !week[6];
    }
  }

  lemma BitTellsDay(week: seq<bool>, beyond: nat, day: nat)
    requires |week| == 7 && day < 7
    ensures ((MaskOf(week) + 128 * beyond) / WeekdayBit(day)) % 2 == 1 <==> week[day]
  {
    hide WeekdayBit;
    var low := Bit(week[0], 1) + Bit(week[1], 2) + Bit(week[2], 4);
    var middle := Bit(week[3], 1) + Bit(week[4], 2) + Bit(week[5], 4);
    var top := Bit(week[6], 1) + 2 * beyond;
    var high := middle + 8 * top;
    var n := MaskOf(week) + 128 * beyond;
    assert n == low + 8 * high && low < 8 && middle < 8;
    assert top % 2 == 1 <==> week[6];
    if day < 3 {
      LowBit(week[0], week[1], week[2], high, day);
    } else {
      ThreeDaysOn(n, low, high, day);
      if day < 6 {
        LowBit(week[3], week[4], week[5], top, day - 3);
      } else {
        ThreeDaysOn(high, middle, top, 3);
      }
    }
  }

  lemma ThreeDaysOn(n: nat, low: nat, high: nat, day: nat)
    requires n == low + 8 * high && low < 8 && 3 <= day < 7
    ensures n / WeekdayBit(day) == high / WeekdayBit(day - 3)
    ensures WeekdayBit(0) == 1
  {
    assert n / 8 == high;
  }

  lemma LowBit(first: bool, second: bool, third: bool, high: nat, day: nat)
    requires day < 3
    ensures var n := Bit(first, 1) + Bit(second, 2) + Bit(third, 4) + 8 * high;
            ((n / WeekdayBit(day)) % 2 == 1 <==> [first, second, third][day])
  {
    var from2 := Bit(third, 1) + 2 * high;
    var from1 := Bit(second, 1) + 2 * from2;
    var n := Bit(first, 1) + 2 * from1;
    assert n == Bit(first, 1) + Bit(second, 2) + Bit(third, 4) + 8 * high;
    LastBit(first, from1);
    LastBit(second, from2);
    LastBit(third, high);
    hide Bit;
    Halves(n);
  }

  lemma LastBit(on: bool, rest: nat)
    ensures var n := Bit(on, 1) + 2 * rest; (n % 2 == 1 <==> on) && n / 2 == rest
  {
  }

  lemma Halves(n: nat)
    ensures n / 1 == n && n / 4 == (n / 2) / 2
  {
  }

  lemma DateOfAt(date: Date, minute: int)
    requires 0 <= minute < MINUTES_IN_DAY
    ensures DateOf(At(date, minute)) == date
  {
  }

  /** The wall-clock reading of `minute` on `date`, or nothing when the hour does not exist. */
  function LocalAt(date: Date, minute: int): Option<Instant> {
    if 0 <= minute / 60 < 24 then Some(At(date, minute)) else None
  }

  function DayStart(cal: Calendar, date: Date): Instant {
    At(date, cal.startMin)
  }

  /** `cursor`, or the opening of its day when that is later. */
  function Opened(cal: Calendar, cursor: Instant): Instant {
    if cursor < DayStart(cal, DateOf(cursor)) then DayStart(cal, DateOf(cursor)) else cursor
  }

  /** Working time left on the day of `cursor`. */
  function TimeLeft(cal: Calendar, cursor: Instant): nat {
    var closing := At(DateOf(cursor), cal.endMin);
    if IsWorkingDay(cal, DateOf(cursor)) && Opened(cal, cursor) < closing then closing - Opened(cal, cursor) else 0
  }

  /** Whole working minutes left on the day of `cursor`. */
  function MinutesLeft(cal: Calendar, cursor: Instant): nat {
    TimeLeft(cal, cursor) / MINUTE
  }

  /**
   Where the cursor rests after consuming `remaining` working minutes, or the
   opening of the day `horizon` when the days before it do not hold that many.
   */
  function Advance(cal: Calendar, cursor: Instant, remaining: int, horizon: Date): Instant
    requires cal.Usable() && remaining > 0
    decreases horizon - DateOf(cursor)
  {
    if DateOf(cursor) >= horizon then cursor
    else if remaining <= MinutesLeft(cal, cursor) then Opened(cal, cursor) + remaining * MINUTE
    else
      DateOfAt(DateOf(cursor) + 1, cal.startMin);
      Advance(cal, DayStart(cal, DateOf(cursor) + 1), remaining - MinutesLeft(cal, cursor), horizon)
  }

  lemma AdvanceByOneDay(cal: Calendar, cursor: Instant, remaining: int, horizon: Date)
    requires cal.Usable() && remaining > 0 && DateOf(cursor) < horizon
    ensures var left := MinutesLeft(cal, cursor);
            Advance(cal, cursor, remaining, horizon) ==
            if remaining <= left then Opened(cal, cursor) + remaining * MINUTE
            else Advance(cal, DayStart(cal, DateOf(cursor) + 1), remaining - left, horizon)
  {
    DateOfAt(DateOf(cursor) + 1, cal.startMin);
  }

  function Horizon(cal: Calendar, from: Instant): Date {
    DateOf(from + cal.offset) + GUARD_DAYS
  }

  function AddWorking(cal: Calendar, from: Instant, minutes: int): Instant
    requires cal.Usable()
  {
    if minutes <= 0 then from
    else Advance(cal, from + cal.offset, minutes, Horizon(cal, from)) - cal.offset
  }

  /** Some day the guarded loop may look at is a working day. */
  predicate SeesWorkingDay(cal: Calendar, from: Instant) {
    exists date :: Horizon(cal, from) - GUARD_DAYS <= date < Horizon(cal, from) && IsWorkingDay(cal, date)
  }

  /**
   The deadline calculator. `None` is the panic of reading 24:00 off a clock:
   a window that ends at minute 1440 is accepted by `New` and then panics
   exactly when a working day is met.
   */
  method AddWorkingDuration(cal: Calendar, from: Instant, minutes: int) returns (r: Option<Instant>)
    requires cal.Valid()
    ensures cal.Usable() ==> r == Some(AddWorking(cal, from, minutes))
    ensures !cal.Usable() ==>
              r == if minutes <= 0 then Some(from)
              else if SeesWorkingDay(cal, from) then None
              else Some(DayStart(cal, Horizon(cal, from)) - cal.offset)
  {
    hide IsWorkingDay, DateOf, At;
    if minutes <= 0 {
      return Some(from);
    }
    var current := from + cal.offset;
    var remaining: int := minutes;
    ghost var firstDay := DateOf(current);
    for i := 0 to GUARD_DAYS
      invariant remaining > 0
      invariant DateOf(current) == firstDay + i
      invariant i > 0 ==> current == DayStart(cal, firstDay + i)
      invariant cal.Usable() ==>
                  Advance(cal, current, remaining, Horizon(cal, from)) == AddWorking(cal, from, minutes) + cal.offset
      invariant !cal.Usable() ==> forall date :: firstDay <= date < firstDay + i ==> !IsWorkingDay(cal, date)
    {
      var day := DateOf(current);
      DateOfAt(day + 1, cal.startMin);
      ghost var before := current;
      if cal.Usable() {
        AdvanceByOneDay(cal, current, remaining, Horizon(cal, from));
      }
      var nextStart := LocalAt(day + 1, cal.startMin);
      if !IsWorkingDay(cal, day) {
        current := nextStart.value;
        continue;
      }
      var opening := LocalAt(day, cal.startMin);
      var closing := LocalAt(day, cal.endMin);
      if closing.None? {
        return None;
      }
      if current < opening.value {
        current := opening.value;
      }
      assert current == Opened(cal, before);
      if current >= closing.value {
        current := nextStart.value;
        continue;
      }
      var available := (closing.value - current) / MINUTE;
      if remaining <= available {
        return Some(current + remaining * MINUTE - cal.offset);
      }
      remaining := remaining - available;
      current := nextStart.value;
    }
    return Some(current - cal.offset);
  }
}
