/** Time bucketing: a wall-clock instant in milliseconds becomes a coarse
    integer bucket, and a bucket becomes a display time again. */
module Timestamps {

  /** Milliseconds per bucket (`timestamp_norfac`). */
  const Granularity: int := 5000

  /** Records older than this many days are swept (`MAX_DAYS`). */
  const MaxDays: int := 7

  /** The retention window in milliseconds: 7 days. */
  const RetentionMillis: int := MaxDays * 24 * 60 * 60 * 1000

  /** True when `ms` lies in the window that rounds to bucket `b`:
      `b*g - g/2 <= ms < b*g + g/2`, written without fractions. */
  predicate InBucket(ms: int, b: int) {
    2 * Granularity * b - Granularity <= 2 * ms < 2 * Granularity * b + Granularity
  }

  /** `Math.round(ms / timestamp_norfac)` on exact integers: the nearest
      integer to `ms / g`, with halves rounded upward (towards +infinity,
      as `Math.round` does, also for negative instants). */
  function Normalize(ms: int): (b: int)
    ensures InBucket(ms, b)
  {
    (2 * ms + Granularity) / (2 * Granularity)
  }

  /** The reader's reconstruction: `wall.timestamp * timestamp_norfac`. */
  function DisplayTime(b: int): (ms: int)
    ensures InBucket(ms, b)
  {
    b * Granularity
  }

  /** The retention cutoff bucket for a sweep at instant `now`. */
  function Cutoff(now: int): (c: int)
    ensures InBucket(now - RetentionMillis, c)
  {
    Normalize(now - RetentionMillis)
  }

  /** The windows are disjoint: each instant has exactly one bucket. */
  lemma BucketUnique(ms: int, b: int)
    requires InBucket(ms, b)
    ensures Normalize(ms) == b
  {
  }

  /** Later instants never get an earlier bucket. */
  lemma NormalizeMonotone(t1: int, t2: int)
    requires t1 <= t2
    ensures Normalize(t1) <= Normalize(t2)
  {
  }

  /** The displayed time is within half a granularity of the captured instant. */
  lemma DisplayTimeError(ms: int)
    ensures -Granularity / 2 < DisplayTime(Normalize(ms)) - ms <= Granularity / 2
  {
  }

  /** Bucketing a displayed time gives back the bucket. */
  lemma NormalizeDisplayTime(b: int)
    ensures Normalize(DisplayTime(b)) == b
  {
  }

  /** Instants less than a granularity apart fall in the same or adjacent buckets. */
  lemma NearbyInstants(t1: int, t2: int)
    requires t1 <= t2 < t1 + Granularity
    ensures Normalize(t1) <= Normalize(t2) <= Normalize(t1) + 1
  {
  }

  /** But closeness alone does not make two instants share a bucket: 2499 ms
      and 2501 ms are 2 ms apart and straddle the boundary at 2500 ms. */
  lemma NearbyInstantsMaySplit()
    ensures Normalize(2499) == 0 && Normalize(2501) == 1
  {
  }
}
