/**
 Dates, instants and fixed-offset time zones.

 An instant is an integer number of nanoseconds, the resolution of the clock
 type of the program; a date is a day number counted from 1970-01-01, a
 Thursday. A zone is a constant offset, so reading an instant in a zone adds
 the offset and leaves it again by subtracting it.
 */
module BusinessTime {

  const MINUTE := 60_000_000_000
  const MINUTES_IN_DAY := 1440
  const DAY := 86_400_000_000_000

  type Instant = int
  type Date = int

  function DateOf(local: Instant): Date {
    local / DAY
  }

  function Midnight(date: Date): Instant {
    date * DAY
  }

  /** The instant at which the clock of `date` shows `minute` minutes past midnight. */
  function At(date: Date, minute: int): Instant {
    Midnight(date) + minute * MINUTE
  }

  function MinuteOfDay(local: Instant): int {
    (local - Midnight(DateOf(local))) / MINUTE
  }

  /** Monday is 0 and Sunday is 6. */
  function Weekday(date: Date): int {
    (date + 3) % 7
  }

  /** 1970-01-01 was a Thursday, and the weekdays go round. */
  lemma WeekdaysGoRound(date: Date)
    ensures Weekday(0) == 3
    ensures Weekday(date + 1) == (if Weekday(date) == 6 then 0 else Weekday(date) + 1)
    ensures Weekday(date + 7) == Weekday(date)
  {
  }
}
