/** Per-user quiet hours and the next instant at which a message may go out. */
module QuietHours {
  import opened Prelude
  import opened BusinessTime

  datatype PreferencesError = UnknownTimezone | MinuteOutOfRange

  /** `quietStart == quietEnd` switches quiet hours off; `quietStart > quietEnd` wraps past midnight. */
  datatype Preferences = Preferences(offset: int, quietStart: int, quietEnd: int)
  {
    predicate Valid() {
      InMinuteRange(quietStart) && InMinuteRange(quietEnd)
    }

    predicate Disabled() {
      quietStart == quietEnd
    }
  }

  predicate InMinuteRange(minute: int) {
    0 <= minute < MINUTES_IN_DAY
  }

  /** `offset` is the outcome of looking the zone up by its name. */
  function New(offset: Option<int>, quietStart: int, quietEnd: int): (r: Result<Preferences, PreferencesError>)
    ensures r.Ok? <==> offset.Some? && InMinuteRange(quietStart) && InMinuteRange(quietEnd)
    ensures r.Ok? ==> r.value == Preferences(offset.value, quietStart, quietEnd) && r.value.Valid()
    ensures offset.None? ==> r == Err(UnknownTimezone)
  {
    if offset.None? then Err(UnknownTimezone)
    else if !InMinuteRange(quietStart) || !InMinuteRange(quietEnd) then Err(MinuteOutOfRange)
    else Ok(Preferences(offset.value, quietStart, quietEnd))
  }

  predicate InsideWindow(minute: int, begin: int, end: int) {
    if begin < end then begin <= minute < end
    else minute >= begin || minute < end
  }

  /** Going round the clock from the window's start, a minute is inside if and only if it comes before the end. */
  lemma WindowIsAnArc(minute: int, begin: int, end: int)
    requires InMinuteRange(minute) && InMinuteRange(begin) && InMinuteRange(end) && begin != end
    ensures InsideWindow(minute, begin, end)
       <==> (minute - begin) % MINUTES_IN_DAY < (end - begin) % MINUTES_IN_DAY
    ensures InsideWindow(minute, begin, end) <==> !InsideWindow(minute, end, begin)
    ensures InsideWindow(begin, begin, end) && !InsideWindow(end, begin, end)
  {
    assert minute < begin ==> (minute - begin) % MINUTES_IN_DAY == minute - begin + MINUTES_IN_DAY;
    assert end < begin ==> (end - begin) % MINUTES_IN_DAY == end - begin + MINUTES_IN_DAY;
  }

  predicate IsInQuietHours(p: Preferences, now: Instant) {
    !p.Disabled() && InsideWindow(MinuteOfDay(now + p.offset), p.quietStart, p.quietEnd)
  }

  /**
   What the user's clock has to show for the hours to be quiet: a minute that
   comes round from the start before the end does. Equal bounds make no hour quiet.
   */
  lemma QuietByTheClock(p: Preferences, date: Date, minute: int, rest: int)
    requires p.Valid() && InMinuteRange(minute) && 0 <= rest < MINUTE
    ensures IsInQuietHours(p, Midnight(date) + minute * MINUTE + rest - p.offset)
       <==> p.quietStart != p.quietEnd
            && (minute - p.quietStart) % MINUTES_IN_DAY < (p.quietEnd - p.quietStart) % MINUTES_IN_DAY
  {
    ClockShows(date, minute, rest);
    hide MinuteOfDay, InsideWindow;
    if p.quietStart != p.quietEnd {
      WindowIsAnArc(minute, p.quietStart, p.quietEnd);
    }
  }

  lemma ClockShows(date: Date, minute: int, rest: int)
    requires InMinuteRange(minute) && 0 <= rest < MINUTE
    ensures MinuteOfDay(Midnight(date) + minute * MINUTE + rest) == minute
  {
    assert DateOf(Midnight(date) + minute * MINUTE + rest) == date;
  }

  function MinutesUntilEndOfWindow(minute: int, begin: int, end: int): int {
    if begin < end then (if end - minute > 1 then end - minute else 1)
    else if minute >= begin then (MINUTES_IN_DAY - minute) + end
    else if end - minute > 1 then end - minute
    else 1
  }

  function NextDeliverableAt(p: Preferences, now: Instant): Instant {
    if !IsInQuietHours(p, now) then now
    else
      var local := now + p.offset;
      var minute := MinuteOfDay(local);
      var ahead := MinutesUntilEndOfWindow(minute, p.quietStart, p.quietEnd);
      var candidate := (minute + ahead) % MINUTES_IN_DAY;
      var date := if minute + ahead >= MINUTES_IN_DAY then DateOf(local) + 1 else DateOf(local);
      At(date, candidate) - p.offset
  }

  lemma MinuteOfDayBounds(local: Instant)
    ensures InMinuteRange(MinuteOfDay(local))
    ensures At(DateOf(local), MinuteOfDay(local)) <= local < At(DateOf(local), MinuteOfDay(local) + 1)
  {
  }

  lemma MinuteOfDayAt(date: Date, minute: int)
    requires InMinuteRange(minute)
    ensures DateOf(At(date, minute)) == date && MinuteOfDay(At(date, minute)) == minute
  {
  }

  /** No instant from `now` up to the answer is outside the window, whether or not midnight lies between. */
  lemma QuietUntilNext(p: Preferences, now: Instant, t: Instant)
    requires p.Valid() && now <= t < NextDeliverableAt(p, now)
    ensures IsInQuietHours(p, t)
  {
    var local, later := now + p.offset, t + p.offset;
    MinuteOfDayBounds(local);
    MinuteOfDayBounds(later);
    assert DateOf(later) == DateOf(local) || DateOf(later) == DateOf(local) + 1;
    if DateOf(later) == DateOf(local) {
      assert MinuteOfDay(later) >= MinuteOfDay(local);
    } else {
      assert MinuteOfDay(later) < p.quietEnd;
    }
  }

  /** The answer is the least instant at or after `now` outside quiet hours, for every kind of window. */
  lemma NextDeliverableIsLeast(p: Preferences, now: Instant)
    requires p.Valid()
    ensures now <= NextDeliverableAt(p, now)
    ensures !IsInQuietHours(p, NextDeliverableAt(p, now))
    ensures forall t :: now <= t < NextDeliverableAt(p, now) ==> IsInQuietHours(p, t)
  {
    var local := now + p.offset;
    MinuteOfDayBounds(local);
    if IsInQuietHours(p, now) {
      MinuteOfDayAt(DateOf(local), p.quietEnd);
      MinuteOfDayAt(DateOf(local) + 1, p.quietEnd);
    }
    forall t | now <= t < NextDeliverableAt(p, now) ensures IsInQuietHours(p, t) {
      QuietUntilNext(p, now, t);
    }
  }

  /** Deferring twice changes nothing, and a later request is never delivered earlier. */
  lemma NextDeliverableIsClosure(p: Preferences, now: Instant, later: Instant)
    requires p.Valid() && now <= later
    ensures NextDeliverableAt(p, NextDeliverableAt(p, now)) == NextDeliverableAt(p, now)
    ensures NextDeliverableAt(p, now) <= NextDeliverableAt(p, later)
    ensures later <= NextDeliverableAt(p, now) ==> NextDeliverableAt(p, later) == NextDeliverableAt(p, now)
  {
    NextDeliverableIsLeast(p, now);
    NextDeliverableIsLeast(p, later);
  }
}
