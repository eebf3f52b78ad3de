/**
 * Time as the client handles it: naive datetimes, conversion to and from
 * the integer epoch seconds of the remote interface, and the renewal window
 * constants (plc.py:28-46).
 */
module Clock {

  /** A naive datetime, as microseconds since 1970-01-01 00:00:00 (the
      resolution of Python's datetime). */
  type Instant = int

  const MicrosPerSecond: int := 1_000_000
  const Day: int := 86_400 * MicrosPerSecond

  /** How far into the future a slice may be renewed: eight weeks. */
  const RenewalCap: int := 8 * 7 * Day
  /** The least slack worth a renewal: one day. */
  const RenewalResol: int := Day

  /** `utcfromtimestamp` applied to integer epoch seconds. */
  function FromUnixSeconds(secs: int): Instant {
    secs * MicrosPerSecond
  }

  /** `int(to_unix_time(t))`: seconds since the epoch, truncated toward zero. */
  function ToUnixSeconds(t: Instant): (secs: int)
    ensures 0 <= t ==> 0 <= secs && FromUnixSeconds(secs) <= t < FromUnixSeconds(secs) + MicrosPerSecond
    ensures t < 0 ==> secs <= 0 && t <= FromUnixSeconds(secs) < t + MicrosPerSecond
  {
    if t >= 0 then t / MicrosPerSecond else -((-t) / MicrosPerSecond)
  }

  /** `renew_upto(days)`: the furthest expiry reachable from `today`. */
  function RenewUpto(today: Instant, lookahead: int): Instant {
    today + lookahead
  }

  /** Whole seconds survive the trip through a datetime and back. */
  lemma {:induction false} UnixSecondsRoundTrip(secs: int)
    ensures ToUnixSeconds(FromUnixSeconds(secs)) == secs
  {
    var back := ToUnixSeconds(FromUnixSeconds(secs));
    assert -MicrosPerSecond < FromUnixSeconds(secs) - FromUnixSeconds(back) < MicrosPerSecond;
  }
}
