/** The rate limiting middleware: one closure with a bucket map and a cleanup clock. */
module RateLimiter {
  import opened TokenBucket
  import opened RateLimiterRuns
  import opened GreedyLimiter

  class Limiter {
    const config: Config
    var buckets: map<string, Bucket>
    var lastCleanup: real
    const start: real
    ghost var requests: seq<Event>
    ghost var decisions: seq<bool>

    /** requests and decisions are the whole history, and a possible run of the limiter. */
    ghost predicate Valid()
      reads this
    {
      WellFormed(config) && Reaches(config, State(map[], start), requests, decisions, Snapshot())
    }

    constructor (rate: real, capacity: real, interval: real, maxClients: int, now: real)
      ensures Valid() && Snapshot() == State(map[], now) && start == now && requests == [] && decisions == []
      ensures config.rate == (if rate > 0.0 then rate else 10.0)
      ensures config.capacity == (if capacity > 0.0 then capacity else 20.0)
      ensures config.interval == (if interval > 0.0 then interval else 300.0)
      ensures config.maxClients == (if maxClients > 0 then maxClients else 100000)
    {
      config := Config(
        if rate <= 0.0 then 10.0 else rate,
        if capacity <= 0.0 then 20.0 else capacity,
        if interval <= 0.0 then 300.0 else interval,
        if maxClients <= 0 then 100000 else maxClients);
      buckets, lastCleanup, start := map[], now, now;
      requests, decisions := [], [];
    }

    ghost function Snapshot(): State
      reads this
    {
      State(buckets, lastCleanup)
    }

    /** One request: the bucket policy, with cleanup and, only when full, eviction. */
    method Allow(clientIP: string, now: real) returns (admitted: bool)
      requires Valid()
      modifies this
      ensures Valid() && requests == old(requests) + [Event(clientIP, now)] && decisions == old(decisions) + [admitted]
      ensures admitted == Admits(config, old(Snapshot()), Event(clientIP, now))
      ensures StepsTo(config, old(Snapshot()), Event(clientIP, now), Snapshot())
    {
      ghost var before := Snapshot();
      admitted := Decide(clientIP, now);
      ReachesOne(config, before, Event(clientIP, now), Snapshot());
      ReachesThrough(config, State(map[], start), requests, decisions, before, [Event(clientIP, now)], [admitted],
        Snapshot());
      requests, decisions := requests + [Event(clientIP, now)], decisions + [admitted];
    }

    /** The closure's locked section. */
    method Decide(clientIP: string, now: real) returns (admitted: bool)
      requires WellFormed(config)
      modifies `buckets, `lastCleanup
      ensures admitted == Admits(config, old(Snapshot()), Event(clientIP, now))
      ensures StepsTo(config, old(Snapshot()), Event(clientIP, now), Snapshot())
    {
      ghost var s := Cleaned(config, Snapshot(), now);
      if now - lastCleanup >= config.interval {
        RemoveInactiveBuckets(now);
        lastCleanup := now;
      }
      assert Snapshot() == s;
      if clientIP !in buckets {
        if |buckets| >= config.maxClients {
          RemoveOldestBucket();
        }
        buckets := buckets[clientIP := Bucket(config.capacity - 1.0, now)];
        return true;
      }
      var b := buckets[clientIP];
      var elapsed := now - b.lastUpdate;
      var tokens := b.tokens + Gain(config, elapsed);
      if tokens > config.capacity {
        tokens := config.capacity;
      }
      if tokens >= 1.0 {
        buckets := buckets[clientIP := Bucket(tokens - 1.0, now)];
        return true;
      }
      buckets := buckets[clientIP := Bucket(tokens, now)];
      return false;
    }

    /** Whatever has been asked so far by clients that fit, no window has admitted more than was promised. */
    lemma PromiseKept(late: real, client: string, s: real, t: real)
      requires Valid() && config.capacity >= 1.0 && late >= 0.0
      requires Gain(config, Respite(config, |Clients(requests)|, late)) >= config.capacity
      requires Timely(start, start, late, requests) && |Clients(requests)| <= config.maxClients && s <= t
      ensures |decisions| == |requests|
      ensures Admitted(requests, decisions, client, s, t) as real <= config.capacity + Gain(config, t - s)
    {
      ReachesLength(config, State(map[], start), requests, decisions, Snapshot());
      FittingRunHeld(config, start, late, requests, decisions, Snapshot(), client, s, t);
    }

    /** And nobody has been refused for less: in time order every decision so far was the greedy one. */
    lemma RefusedOnlyForThePromise()
      requires Valid() && config.capacity >= 1.0 && Gain(config, config.interval) >= config.capacity
      requires InOrder(start, requests) && |Clients(requests)| <= config.maxClients
      ensures Greedy(config, requests, decisions)
    {
      assert Possible(config, start, requests, decisions);
      RunIsGreedy(config, start, requests, decisions);
    }

    method RemoveInactiveBuckets(now: real)
      modifies `buckets
      ensures buckets == Swept(config, old(buckets), now)
      ensures forall c :: c in buckets <==> c in old(buckets) && now - old(buckets)[c].lastUpdate <= config.interval
    {
      var todo := buckets.Keys;
      while todo != {}
        invariant todo <= old(buckets).Keys
        invariant forall c :: c in buckets ==> c in old(buckets) && buckets[c] == old(buckets)[c]
        invariant forall c :: c in old(buckets) && c !in buckets ==> now - old(buckets)[c].lastUpdate > config.interval
        invariant forall c :: c in buckets && c !in todo ==> now - buckets[c].lastUpdate <= config.interval
        invariant todo <= buckets.Keys
        decreases |todo|
      {
        var clientIP :| clientIP in todo;
        if now - buckets[clientIP].lastUpdate > config.interval {
          buckets := buckets - {clientIP};
        }
        todo := todo - {clientIP};
      }
    }

    method RemoveOldestBucket()
      requires buckets != map[]
      modifies `buckets
      ensures exists victim :: Evictable(old(buckets), victim) && buckets == old(buckets) - {victim}
    {
      var oldestIP, oldestUpdate := "", 0.0;
      var todo := buckets.Keys;
      while todo != {}
        invariant todo <= buckets.Keys
        invariant oldestIP != "" ==> oldestIP in buckets && oldestUpdate == buckets[oldestIP].lastUpdate
        invariant oldestIP == "" ==> todo == buckets.Keys || "" in buckets
        invariant "" !in buckets && oldestIP != "" ==>
                    forall c :: c in buckets && c !in todo ==> oldestUpdate <= buckets[c].lastUpdate
        decreases |todo|
      {
        var clientIP :| clientIP in todo;
        if oldestIP == "" || buckets[clientIP].lastUpdate < oldestUpdate {
          oldestIP := clientIP;
          oldestUpdate := buckets[clientIP].lastUpdate;
        }
        todo := todo - {clientIP};
      }
      assert buckets.Keys != {};
      assert Evictable(buckets, oldestIP);
      buckets := buckets - {oldestIP};
    }
  }
}
