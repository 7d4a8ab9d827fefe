/** Timestamps. Both stores keep `datetime.now().isoformat()` text, whose lexicographic order is
    chronological; an integer count of microseconds keeps exactly those comparisons. */
module Clock {
  import opened Wrappers

  /** A wall-clock instant in microseconds. */
  type Instant = int

  const MicrosPerMinute: int := 60 * 1000 * 1000
  const MicrosPerDay: int := 24 * 60 * MicrosPerMinute

  /** `(datetime.now() - timedelta(minutes=m)).isoformat()`. */
  function MinutesBefore(now: Instant, minutes: int): (cutoff: Instant)
    ensures minutes > 0 ==> cutoff < now
    ensures minutes == 0 ==> cutoff == now
  {
    now - minutes * MicrosPerMinute
  }

  /** `(datetime.now() - timedelta(days=d)).isoformat()`. */
  function DaysBefore(now: Instant, days: int): (cutoff: Instant)
    ensures days > 0 ==> cutoff < now
    ensures cutoff == MinutesBefore(now, 24 * 60 * days)
  {
    now - days * MicrosPerDay
  }

  /** SQL `column < cutoff` in a WHERE clause: a NULL column compares as unknown, and
      WHERE treats unknown as false. */
  predicate Earlier(t: Option<Instant>, cutoff: Instant) {
    t.Some? && t.value < cutoff
  }

  /** A longer window gives an earlier cutoff, at the same instant. */
  lemma LongerWindowEarlierCutoff(now: Instant, minutes: int, longer: int)
    ensures MinutesBefore(now, longer) < MinutesBefore(now, minutes) <==> longer > minutes
  {
  }
}
