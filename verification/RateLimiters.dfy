/** The two limiter objects, proved against WindowStore. */
module RateLimiters {
  import opened WindowStore

  class SlidingWindowLimiter {
    var hits: Store
    const maxRequests: nat
    const windowMs: nat
    const maxTrackedSources: nat

    constructor (maxRequests: nat, windowMs: nat, maxTrackedSources: nat)
      ensures Settings() == Config(maxRequests, windowMs, maxTrackedSources) && hits == EMPTY
    {
      this.maxRequests, this.windowMs, this.maxTrackedSources := maxRequests, windowMs, maxTrackedSources;
      hits := EMPTY;
    }

    ghost function Settings(): Config { Config(maxRequests, windowMs, maxTrackedSources) }

    method TryConsume(source: Source, now: int) returns (allowed: bool)
      modifies this
      ensures (allowed, hits) == Consume(Settings(), old(hits), source, now)
    {
      var cutoff := now - windowMs;
      var kept := After(Get(hits.times, source), cutoff);
      if |kept| >= maxRequests {
        hits := Put(hits, source, kept);
        return false;
      }
      if source !in hits.times && |hits.times| >= maxTrackedSources {
        if |hits.order| > 0 {
          hits := Drop(hits, hits.order[0]);
        }
      }
      kept := kept + [now];
      hits := Put(hits, source, kept);
      return true;
    }
  }

  class FailedAuthLimiter {
    var failures: Store
    const maxFailures: nat
    const windowMs: nat
    const maxTrackedSources: nat

    constructor (maxFailures: nat, windowMs: nat, maxTrackedSources: nat)
      ensures Settings() == Config(maxFailures, windowMs, maxTrackedSources) && failures == EMPTY
    {
      this.maxFailures, this.windowMs, this.maxTrackedSources := maxFailures, windowMs, maxTrackedSources;
      failures := EMPTY;
    }

    ghost function Settings(): Config { Config(maxFailures, windowMs, maxTrackedSources) }

    /** The failures still in the window; the stored list is trimmed to them. */
    method RecentFailures(source: Source, now: int) returns (kept: seq<int>)
      modifies this
      ensures kept == Kept(Settings(), old(failures), source, now)
      ensures failures == Recent(Settings(), old(failures), source, now)
    {
      var cutoff := now - windowMs;
      kept := After(Get(failures.times, source), cutoff);
      if |kept| == 0 {
        failures := Drop(failures, source);
      } else {
        failures := Put(failures, source, kept);
      }
    }

    method RecordFailure(source: Source, now: int)
      modifies this
      ensures failures == Fail(Settings(), old(failures), source, now)
    {
      if source !in failures.times && |failures.times| >= maxTrackedSources {
        if |failures.order| > 0 {
          failures := Drop(failures, failures.order[0]);
        }
      }
      var times := RecentFailures(source, now);
      times := times + [now];
      failures := Put(failures, source, times);
    }

    method RecordSuccess(source: Source)
      modifies this
      ensures failures == Drop(old(failures), source) && source !in failures.times
      ensures forall s | s != source :: Get(failures.times, s) == Get(old(failures).times, s)
    {
      failures := Drop(failures, source);
    }

    method IsBlocked(source: Source, now: int) returns (blocked: bool)
      modifies this
      ensures (blocked, failures) == Blocked(Settings(), old(failures), source, now)
    {
      var kept := RecentFailures(source, now);
      blocked := |kept| >= maxFailures;
    }
  }
}
