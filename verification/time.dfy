/** Time as the .NET runtime counts it: whole ticks of 100 nanoseconds. A point in
    time (`DateTime`, `DateTimeOffset`) is its tick count on one common time line
    and a duration (`TimeSpan`) is a signed tick count. */
module Time {

  const TicksPerMillisecond: int := 10_000
  const TicksPerDay: int := 24 * 60 * 60 * 1000 * TicksPerMillisecond

  /** `TimeSpan.FromMilliseconds` for a whole number of milliseconds. */
  function FromMilliseconds(milliseconds: int): (ticks: int)
  {
    milliseconds * TicksPerMillisecond
  }

  /** `TimeSpan.FromDays` for a whole number of days. */
  function FromDays(days: int): (ticks: int)
  {
    days * TicksPerDay
  }
}
