/** Timestamps of the weekly grid.
 *
 * `datetime.strptime("HH:MM", "%H:%M")` yields a datetime on the base date
 * 1900-01-01, which is a Monday. A timestamp here is the number of whole
 * minutes since 1900-01-01 00:00, so day index 0 is Monday and day index 6
 * is Sunday. `timedelta(days=d)` adds 1440*d minutes and
 * `timedelta(hours=h)` adds 60*h minutes.
 */
module Time {

  const MinutesPerHour: int := 60
  const MinutesPerDay: int := 1440
  const DaysPerWeek: int := 7
  const SecondsPerMinute: int := 60
  const SecondsPerHour: int := 3600

  /** The hour field accepted by the "%H" directive. */
  type Hour = h: int | 0 <= h < 24

  /** The minute field accepted by the "%M" directive. */
  type Minute = m: int | 0 <= m < 60

  /** Minutes since 1900-01-01 00:00. */
  type Timestamp = int

  /** Whole days since the base date; 0 is Monday 1900-01-01. */
  function DayIndex(t: Timestamp): int
  {
    t / MinutesPerDay
  }

  /** `datetime.weekday()`: 0 is Monday, 6 is Sunday. */
  function Weekday(t: Timestamp): int
  {
    DayIndex(t) % DaysPerWeek
  }

  /** Minutes since midnight of the timestamp's day. */
  function TimeOfDay(t: Timestamp): int
  {
    t % MinutesPerDay
  }

  /** `datetime.hour`. */
  function HourOf(t: Timestamp): int
  {
    TimeOfDay(t) / MinutesPerHour
  }

  /** `datetime.minute`. */
  function MinuteOf(t: Timestamp): int
  {
    t % MinutesPerHour
  }

  /** `parse_time`: the "HH:MM" time on Monday of the base week. Reading the
   *  hour and the minute back gives the fields that were parsed. */
  function ParseTime(hour: Hour, minute: Minute): (t: Timestamp)
    ensures 0 <= t < MinutesPerDay
    ensures DayIndex(t) == 0 && Weekday(t) == 0
    ensures TimeOfDay(t) == t
    ensures HourOf(t) == hour && MinuteOf(t) == minute
  {
    hour * MinutesPerHour + minute
  }

  /** `add_days`: the same time of day, `days` days later. */
  function AddDays(t: Timestamp, days: int): (r: Timestamp)
    ensures TimeOfDay(r) == TimeOfDay(t)
    ensures DayIndex(r) == DayIndex(t) + days
  {
    t + days * MinutesPerDay
  }

  /** `timedelta(hours=n)`, in minutes. */
  function Hours(n: int): int
  {
    n * MinutesPerHour
  }
}
