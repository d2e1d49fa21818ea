/** The deadline kernel: an assistant hint first, the user's own words second, the calendar last. */
module Deadlines {
  import opened Prelude
  import opened BusinessTime
  import opened WorkingCalendars
  import opened WorkingTime

  const DEFAULT_END_OF_BUSINESS_MIN := 1080

  datatype Source = AiStructured | DeterministicText | NoneProvided

  /** What reading the assistant's hint yields. */
  datatype Hint = Blank | Timestamp(instant: Instant) | BareDate(date: Date) | Garbled

  /** The text names a date the calendar does not have. */
  datatype TextError = ImpossibleDate

  datatype Deadline = Deadline(utc: Option<Instant>, localDate: Option<Date>, source: Source)

  /**
   Everything the kernel is given. `textDate` is what the text parser makes of
   the user's words: a date, nothing, or an error.
   */
  datatype Input = Input(
    hint: Option<Hint>,
    textDate: Result<Option<Date>, TextError>,
    userOffset: int,
    now: Instant,
    calendar: Option<Calendar>)
  {
    predicate Valid() {
      calendar.Some? ==> calendar.value.Valid()
    }
  }

  /** A valid calendar that closes at 24:00, an hour no clock shows: reading it off panics. */
  predicate ClosesAtMidnight(calendar: Option<Calendar>) {
    calendar.Some? && calendar.value.endMin == MINUTES_IN_DAY
  }

  function EndOfBusiness(date: Date, offset: int, calendar: Option<Calendar>): Instant {
    At(date, if calendar.Some? then calendar.value.endMin else DEFAULT_END_OF_BUSINESS_MIN) - offset
  }

  /** A clock that shows `local` shows the closing minute of the calendar on `date`, or 18:00 without a calendar. */
  predicate Shows(local: Instant, date: Date, calendar: Option<Calendar>) {
    local == Midnight(date) + (if calendar.Some? then calendar.value.endMin else 18 * 60) * MINUTE
  }

  /** The code's own computation; `None` is its panic. */
  function EndOfBusinessUtc(date: Date, offset: int, calendar: Option<Calendar>): (r: Option<Instant>)
    requires calendar.Some? ==> calendar.value.Valid()
    ensures r == if ClosesAtMidnight(calendar) then None else Some(EndOfBusiness(date, offset, calendar))
    ensures r.Some? ==> Shows(r.value + offset, date, calendar)
  {
    var local := LocalAt(date, if calendar.Some? then calendar.value.endMin else DEFAULT_END_OF_BUSINESS_MIN);
    if local.None? then None else Some(local.value - offset)
  }

  function LocalDate(cal: Calendar, t: Instant): Date {
    DateOf(t + cal.offset)
  }

  /** `date` is the first working day after `day`, and one of the 366 days looked at. */
  predicate IsNextWorkingDay(cal: Calendar, day: Date, date: Date) {
    && day < date <= day + GUARD_DAYS
    && IsWorkingDay(cal, date)
    && forall between :: day < between < date ==> !IsWorkingDay(cal, between)
  }

  /** What rolling `candidate` forward must give. */
  ghost predicate RolledForward(cal: Calendar, candidate: Instant, r: Instant) {
    var day := LocalDate(cal, candidate);
    if IsWorkingDay(cal, day) then r == candidate
    else if exists date :: IsNextWorkingDay(cal, day, date) then
      exists date :: IsNextWorkingDay(cal, day, date) && Shows(r + cal.offset, date, Some(cal))
    else r == candidate
  }

  /** `candidate` is on a non-working day and one of the 366 days after it is a working one. */
  ghost predicate Moves(cal: Calendar, candidate: Instant) {
    !IsWorkingDay(cal, LocalDate(cal, candidate)) && exists date :: IsNextWorkingDay(cal, LocalDate(cal, candidate), date)
  }

  method ApplyCalendar(candidate: Instant, calendar: Option<Calendar>) returns (r: Option<Instant>)
    requires calendar.Some? ==> calendar.value.Valid()
    ensures r.None? <==> ClosesAtMidnight(calendar) && Moves(calendar.value, candidate)
    ensures r.Some? ==> IsApplied(candidate, calendar, r.value)
    ensures r.Some? && calendar.Some? && Moves(calendar.value, candidate) ==>
              && EndsWork(calendar.value, r.value)
              && IsNextWorkingDay(calendar.value, LocalDate(calendar.value, candidate), LocalDate(calendar.value, r.value))
  {
    if calendar.None? {
      return Some(candidate);
    }
    var cal := calendar.value;
    var day := LocalDate(cal, candidate);
    if IsWorkingDay(cal, day) {
      return Some(candidate);
    }
    for ahead := 1 to GUARD_DAYS + 1
      invariant forall between :: day < between < day + ahead ==> !IsWorkingDay(cal, between)
    {
      if IsWorkingDay(cal, day + ahead) {
        assert IsNextWorkingDay(cal, day, day + ahead);
        if cal.Usable() {
          ClosingEndsWork(cal, day + ahead);
        }
        return EndOfBusinessUtc(day + ahead, cal.offset, calendar);
      }
    }
    return Some(candidate);
  }

  /** Work goes on until `r`, and no nanosecond longer. */
  predicate EndsWork(cal: Calendar, r: Instant) {
    && IsEndOfBusiness(cal, r)
    && IsWorkingInstant(cal, r + cal.offset - 1) && !IsWorkingInstant(cal, r + cal.offset)
  }

  lemma ClosingEndsWork(cal: Calendar, date: Date)
    requires cal.Usable() && IsWorkingDay(cal, date)
    ensures var r := EndOfBusiness(date, cal.offset, Some(cal)); EndsWork(cal, r) && LocalDate(cal, r) == date
  {
    var closing := At(date, cal.endMin);
    DateOfAt(date, cal.endMin);
    SameDay(Midnight(date), closing - 1);
    hide IsWorkingDay;
  }

  ghost predicate IsApplied(candidate: Instant, calendar: Option<Calendar>, r: Instant) {
    if calendar.None? then r == candidate else RolledForward(calendar.value, candidate, r)
  }

  /** Rolling forward is a function, never goes back, and has nothing left to do on its own result. */
  lemma RollingForwardIsClosure(cal: Calendar, candidate: Instant, r: Instant, again: Instant)
    requires cal.Usable()
    requires RolledForward(cal, candidate, r) && RolledForward(cal, r, again)
    ensures candidate <= r && again == r
    ensures forall other :: RolledForward(cal, candidate, other) ==> other == r
  {
    var day := LocalDate(cal, candidate);
    if date :| IsNextWorkingDay(cal, day, date) && Shows(r + cal.offset, date, Some(cal)) {
      DateOfAt(date, cal.endMin);
    }
  }

  /** A result differs from the candidate exactly when it was moved off a non-working day, to a working one. */
  lemma RolledForwardLandsOnWorkingDay(cal: Calendar, candidate: Instant, r: Instant)
    requires cal.Usable() && RolledForward(cal, candidate, r)
    ensures IsWorkingDay(cal, LocalDate(cal, r))
        <==> exists date :: LocalDate(cal, candidate) <= date <= LocalDate(cal, candidate) + GUARD_DAYS && IsWorkingDay(cal, date)
  {
    var day := LocalDate(cal, candidate);
    if date :| IsNextWorkingDay(cal, day, date) && Shows(r + cal.offset, date, Some(cal)) {
      DateOfAt(date, cal.endMin);
    } else if date :| day < date <= day + GUARD_DAYS && IsWorkingDay(cal, date) {
      var first := FirstWorkingDay(cal, day, date);
    }
  }

  lemma FirstWorkingDay(cal: Calendar, day: Date, date: Date) returns (first: Date)
    requires day < date <= day + GUARD_DAYS && IsWorkingDay(cal, date)
    ensures IsNextWorkingDay(cal, day, first)
    decreases date - day
  {
    if earlier :| day < earlier < date && IsWorkingDay(cal, earlier) {
      first := FirstWorkingDay(cal, day, earlier);
    } else {
      first := date;
    }
  }

  /** `r` is the closing time of its day, as the calendar's clock shows it. */
  predicate IsEndOfBusiness(cal: Calendar, r: Instant) {
    r + cal.offset - Midnight(LocalDate(cal, r)) == cal.endMin * MINUTE
  }

  /** A deadline is the closing time of its day exactly if it had to be moved or its candidate was one already. */
  lemma EndsDayExactlyWhen(cal: Calendar, candidate: Instant, r: Instant)
    requires cal.Usable() && RolledForward(cal, candidate, r)
    ensures IsEndOfBusiness(cal, r) <==> Moves(cal, candidate) || IsEndOfBusiness(cal, candidate)
  {
    var day := LocalDate(cal, candidate);
    if date :| IsNextWorkingDay(cal, day, date) && Shows(r + cal.offset, date, Some(cal)) {
      DateOfAt(date, cal.endMin);
    }
  }

  /** The closing time of a date on the user's clock is one of the calendar's exactly if the two clocks show the same time. */
  lemma UserDateEndsDayExactlyWhen(cal: Calendar, date: Date, userOffset: int)
    requires cal.Usable()
    ensures IsEndOfBusiness(cal, EndOfBusiness(date, userOffset, Some(cal))) <==> (cal.offset - userOffset) % DAY == 0
  {
    var local := EndOfBusiness(date, userOffset, Some(cal)) + cal.offset;
    var shift := cal.offset - userOffset;
    assert local == Midnight(date) + cal.endMin * MINUTE + shift;
    DateOfAt(DateOf(local), cal.endMin);
    if shift % DAY == 0 {
      assert local == At(date + shift / DAY, cal.endMin);
      DateOfAt(date + shift / DAY, cal.endMin);
    }
    if local == At(DateOf(local), cal.endMin) {
      assert shift == DAY * (DateOf(local) - date);
    }
  }

  /** An instant in the middle of a working day stays where it is. */
  lemma NoonIsNotMoved()
    ensures var cal, noon := Calendar(0, 127, 540, 1080, {}, {}), At(0, 720);
            RolledForward(cal, noon, noon) && !IsEndOfBusiness(cal, noon)
  {
    var cal := Calendar(0, 127, 540, 1080, {}, {});
    MaskSelectsItsDays(cal, [true, true, true, true, true, true, true], 0, 0);
    DateOfAt(0, 720);
  }

  /** The assistant's hint makes the kernel read off the closing time of a calendar that closes at 24:00. */
  ghost predicate HintPanics(input: Input, hint: Hint) {
    && ClosesAtMidnight(input.calendar)
    && (hint.BareDate?
        || (hint.Timestamp? && input.now <= hint.instant && Moves(input.calendar.value, hint.instant)))
  }

  /** A readable hint that does not lie in the past. */
  predicate IsLive(input: Input, hint: Hint) {
    match hint
    case Timestamp(instant) => input.now <= instant
    case BareDate(date) =>
      var closing := if input.calendar.Some? then input.calendar.value.endMin else 18 * 60;
      input.now + input.userOffset <= Midnight(date) + closing * MINUTE
    case _ => false
  }

  /**
   `r` is the deadline for a bare date: the closing time on the user's clock
   or, if that falls on a day off, the end of work of the next working day.
   */
  ghost predicate IsDeadlineFor(input: Input, date: Date, r: Instant) {
    if input.calendar.None? then r + input.userOffset == Midnight(date) + 18 * 60 * MINUTE
    else
      var cal := input.calendar.value;
      var candidate := Midnight(date) + cal.endMin * MINUTE - input.userOffset;
      if Moves(cal, candidate) then EndsWork(cal, r) && IsNextWorkingDay(cal, LocalDate(cal, candidate), LocalDate(cal, r))
      else r == candidate
  }

  lemma AppliedIsDeadline(input: Input, date: Date, r: Instant)
    requires input.Valid() && !(ClosesAtMidnight(input.calendar))
    requires IsApplied(EndOfBusiness(date, input.userOffset, input.calendar), input.calendar, r)
    ensures IsDeadlineFor(input, date, r)
  {
    if input.calendar.Some? {
      var cal := input.calendar.value;
      var candidate := EndOfBusiness(date, input.userOffset, input.calendar);
      if Moves(cal, candidate) {
        var next :| IsNextWorkingDay(cal, LocalDate(cal, candidate), next) && Shows(r + cal.offset, next, Some(cal));
        ClosingEndsWork(cal, next);
      }
    }
  }

  method TryAiIso(input: Input, hint: Hint) returns (panicked: bool, r: Option<Deadline>)
    requires input.Valid()
    ensures panicked <==> HintPanics(input, hint)
    ensures !panicked ==> (r.Some? <==> IsLive(input, hint))
    ensures !panicked && r.Some? ==> FromInstant(input, HintInstant(input, hint), AiStructured, r.value)
    ensures !panicked && r.Some? && hint.BareDate? ==> IsDeadlineFor(input, hint.date, r.value.utc.value)
  {
    if hint.Blank? || hint.Garbled? {
      return false, None;
    }
    var parsed := if hint.Timestamp? then Some(hint.instant) else EndOfBusinessUtc(hint.date, input.userOffset, input.calendar);
    if parsed.None? {
      return true, None;
    }
    if parsed.value < input.now {
      return false, None;
    }
    var clamped := ApplyCalendar(parsed.value, input.calendar);
    if clamped.None? {
      return true, None;
    }
    if hint.BareDate? {
      AppliedIsDeadline(input, hint.date, clamped.value);
    }
    return false, Some(Deadline(clamped, Some(DateOf(clamped.value + input.userOffset)), AiStructured));
  }

  function HintInstant(input: Input, hint: Hint): Instant {
    match hint
    case Timestamp(instant) => instant
    case BareDate(date) => EndOfBusiness(date, input.userOffset, input.calendar)
    case _ => input.now
  }

  /** `d` is `candidate` put on the calendar, and its date as the user's clock shows it. */
  ghost predicate FromInstant(input: Input, candidate: Instant, source: Source, d: Deadline) {
    && d.source == source && d.utc.Some?
    && IsApplied(candidate, input.calendar, d.utc.value)
    && d.localDate == Some(DateOf(d.utc.value + input.userOffset))
  }

  predicate HasTextDate(input: Input) {
    input.textDate.Ok? && input.textDate.value.Some?
  }

  method TryDeterministic(input: Input) returns (panicked: bool, r: Result<Option<Deadline>, TextError>)
    requires input.Valid()
    ensures panicked <==> ClosesAtMidnight(input.calendar) && HasTextDate(input)
    ensures !panicked && input.textDate.Err? ==> r == Err(input.textDate.error)
    ensures !panicked && input.textDate.Ok? ==> r.Ok? && (r.value.Some? <==> HasTextDate(input))
    ensures !panicked && r.Ok? && r.value.Some? ==>
              FromInstant(input, EndOfBusiness(input.textDate.value.value, input.userOffset, input.calendar),
                          DeterministicText, r.value.value)
    ensures !panicked && r.Ok? && r.value.Some? ==>
              IsDeadlineFor(input, input.textDate.value.value, r.value.value.utc.value)
  {
    if input.textDate.Err? {
      return false, Err(input.textDate.error);
    }
    if input.textDate.value.None? {
      return false, Ok(None);
    }
    var ending := EndOfBusinessUtc(input.textDate.value.value, input.userOffset, input.calendar);
    if ending.None? {
      return true, Ok(None);
    }
    var utc := ApplyCalendar(ending.value, input.calendar);
    AppliedIsDeadline(input, input.textDate.value.value, utc.value);
    return false, Ok(Some(Deadline(utc, Some(DateOf(utc.value + input.userOffset)), DeterministicText)));
  }

  /** Which of the three sources decides; a stale or unreadable hint gives way to the text. */
  function ChosenSource(input: Input): Source {
    if input.hint.Some? && IsLive(input, input.hint.value) then AiStructured
    else if HasTextDate(input) then DeterministicText
    else NoneProvided
  }

  /** When resolving panics: only under a calendar that closes at 24:00, and only if that hour is needed. */
  ghost predicate Panics(input: Input) {
    || (input.hint.Some? && HintPanics(input, input.hint.value))
    || (ChosenSource(input).DeterministicText? && ClosesAtMidnight(input.calendar))
  }

  /** The outcome, when there is one: a deadline, or the error of the text parser if the text is asked at all. */
  method Resolve(input: Input) returns (r: Option<Result<Deadline, TextError>>)
    requires input.Valid()
    ensures r.None? <==> Panics(input)
    ensures r.Some? && r.value.Err? <==>
              !Panics(input) && input.textDate.Err? && !ChosenSource(input).AiStructured?
    ensures r.Some? && r.value.Err? ==> r.value.error == input.textDate.error
    ensures r.Some? && r.value.Ok? ==>
              var d := r.value.value;
              && d.source == ChosenSource(input)
              && (d.utc.None? <==> d.localDate.None?)
              && (d.utc.None? <==> d.source.NoneProvided?)
              && (d.source.AiStructured? ==>
                    FromInstant(input, HintInstant(input, input.hint.value), d.source, d) && input.now <= d.utc.value)
              && (d.source.DeterministicText? ==>
                    FromInstant(input, EndOfBusiness(input.textDate.value.value, input.userOffset, input.calendar), d.source, d))
              // what the clocks show
              && (d.source.AiStructured? && input.hint.value.BareDate? ==>
                    IsDeadlineFor(input, input.hint.value.date, d.utc.value))
              && (d.source.DeterministicText? ==> IsDeadlineFor(input, input.textDate.value.value, d.utc.value))
  {
    if input.hint.Some? {
      var panicked, resolved := TryAiIso(input, input.hint.value);
      if panicked {
        return None;
      }
      if resolved.Some? {
        if input.calendar.Some? {
          NeverBack(input.calendar.value, HintInstant(input, input.hint.value), resolved.value.utc.value);
        }
        return Some(Ok(resolved.value));
      }
    }
    var panicked, resolved := TryDeterministic(input);
    if panicked {
      return None;
    }
    if resolved.Err? {
      return Some(Err(resolved.error));
    }
    return Some(Ok(if resolved.value.Some? then resolved.value.value else Deadline(None, None, NoneProvided)));
  }

  lemma NeverBack(cal: Calendar, candidate: Instant, r: Instant)
    requires cal.Valid() && RolledForward(cal, candidate, r)
    ensures candidate <= r
  {
  }
}
