/** The dispatcher's clock arithmetic. Its clock (`realtimeSinceStartup`) and
    the wall clock (`DateTime.Now`) are read once per call and passed in as
    `now` and `wallNow`; all times are whole ticks. */
module DispatchTime {

  /** `NormalizeTime(float delay)`: the dispatcher time `delay` after `now`. */
  function NormalizeTime(now: int, delay: int): (t: int)
    ensures t - now == delay
  {
    now + delay
  }

  /** `NormalizeTime(DateTime reserveTime)`: the wall-clock instant as
      dispatcher time, keeping its distance from the present. */
  function NormalizeInstant(now: int, wallNow: int, reserveTime: int): (t: int)
    ensures t - now == reserveTime - wallNow
  {
    now + (reserveTime - wallNow)
  }

  /** `ValidateTime(float delay)`: a negative delay is refused. */
  function ValidateDelay(delay: int): (ok: bool)
    ensures ok <==> 0 <= delay
  {
    !(delay < 0)
  }

  /** `ValidateTime(DateTime time)`: only an instant strictly after the present
      is accepted. */
  function ValidateInstant(time: int, wallNow: int): (ok: bool)
    ensures ok <==> wallNow < time
  {
    time > wallNow
  }

  /** An accepted instant always passes the delay check that the instant
      overloads forward to, and lands where `NormalizeTime(DateTime)` puts it. */
  lemma AcceptedInstantIsAcceptedDelay(now: int, wallNow: int, time: int)
    requires ValidateInstant(time, wallNow)
    ensures ValidateDelay(time - wallNow) && 0 < time - wallNow
    ensures NormalizeTime(now, time - wallNow) == NormalizeInstant(now, wallNow, time)
  {
  }
}
