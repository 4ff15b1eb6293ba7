/** Monotonic time in seconds, as std::time::Instant reports it. */
module Clock {
  /** The clock never reports a negative difference. */
  function Elapsed(since: real, now: real): (seconds: real)
    ensures seconds >= 0.0 && (seconds > 0.0 ==> since + seconds == now) && since + seconds >= now
  {
    if since <= now then now - since else 0.0
  }
}
