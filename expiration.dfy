/**
 * Expiry arithmetic of the cache. Every timestamp is an absolute time in whole
 * seconds, read from a clock the caller supplies (`now`).
 */
module Expiration {

  import opened Wrappers

  /** The lifetime `save` gives a row when no lifetime is passed, in seconds. */
  const DefaultTtl: int := 30

  /** The absolute expiry `save` stores: `now` plus the lifetime, or plus the default. */
  function Expiry(now: int, ttl: Option<int>): (time: int)
  {
    match ttl
    case None => now + DefaultTtl
    case Some(t) => now + t
  }

  /** The test `get` applies: a row is rejected only once the clock has passed its time. */
  predicate Expired(now: int, time: int)
  {
    now > time
  }

  /** The filter `clear(true)` applies: rows whose time is strictly before the clock. */
  predicate Stale(now: int, time: int)
  {
    time < now
  }

  /** The two boundaries agree: `clear(true)` removes exactly what `get` would reject. */
  lemma StaleIffExpired(now: int, time: int)
    ensures Stale(now, time) <==> Expired(now, time)
  {
  }

  /** A row stored with lifetime `ttl` remains readable at `later` exactly up to and including its expiry second. */
  lemma LiveWindow(now: int, ttl: Option<int>, later: int)
    ensures !Expired(later, Expiry(now, ttl)) <==>
            later - now <= (if ttl.None? then DefaultTtl else ttl.value)
  {
  }

  /** At the instant of writing, a row is readable iff its lifetime is not negative (a lifetime of zero still reads). */
  lemma FreshIffNonNegative(now: int, ttl: Option<int>)
    ensures !Expired(now, Expiry(now, ttl)) <==> (ttl.None? || ttl.value >= 0)
  {
  }
}
