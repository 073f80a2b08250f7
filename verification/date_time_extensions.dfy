/** Expiry checks on `DateTime` values (DateTimeExtensions.cs). The clock reading
    `DateTime.Now` is the parameter `now`. */
module DateTimeExtensions {

  /** `IsExpired(timestamp, duration)`: the timestamp moved forward by the duration
      lies strictly before now, that is, strictly more than `duration` ticks have
      passed since `timestamp`. */
  function IsExpired(timestamp: int, duration: int, now: int): (expired: bool)
    ensures expired <==> now - timestamp > duration
  {
    timestamp + duration < now
  }

  /** `IsExpired(timestamp)`: the overload that passes `TimeSpan.Zero`. */
  function IsExpiredNow(timestamp: int, now: int): (expired: bool)
    ensures expired <==> IsExpired(timestamp, 0, now)
    ensures expired <==> timestamp < now
  {
    IsExpired(timestamp, 0, now)
  }

  /** The comparison is strict: exactly at `timestamp + duration` nothing has expired. */
  lemma NotExpiredAtBoundary(timestamp: int, duration: int)
    ensures !IsExpired(timestamp, duration, timestamp + duration)
    ensures IsExpired(timestamp, duration, timestamp + duration + 1)
  {
  }

  /** Once expired, a timestamp stays expired as the clock moves on. */
  lemma ExpiredStaysExpired(timestamp: int, duration: int, now1: int, now2: int)
    requires IsExpired(timestamp, duration, now1)
    requires now1 <= now2
    ensures IsExpired(timestamp, duration, now2)
  {
  }

  /** Expired for a duration means expired for every shorter duration. */
  lemma ExpiredForShorterDuration(timestamp: int, duration: int, shorter: int, now: int)
    requires IsExpired(timestamp, duration, now)
    requires shorter <= duration
    ensures IsExpired(timestamp, shorter, now)
  {
  }
}
