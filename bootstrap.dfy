/** LoadConfigFromDBToRedis (cmd/rate-limiter/main.go): copy every row of the
    rate_limits table into Redis at startup, one config at a time, stopping
    at the first write that fails. */
module Bootstrap {
  import opened Common
  import opened Redis
  import opened RedisClient
  import opened Cassandra

  /** The key space after writing the configs of cs, in order. */
  function Hydrated(db: Entries, now: int, cs: seq<RateLimiter>): (r: Entries)
    decreases |cs|
  {
    if cs == [] then db
    else
      var last := cs[|cs| - 1];
      StoreConfig(Hydrated(db, now, cs[..|cs| - 1]), now, last.id, last.limit, last.resetAfter)
  }

  /** Hydration touches only the keys named by the configs' ids: any other
      key keeps its presence and its value. */
  lemma {:induction false} HydratedTouchesOnlyIds(db: Entries, now: int, cs: seq<RateLimiter>, k: string)
    requires k !in Ids(cs)
    ensures k in Hydrated(db, now, cs) <==> k in db
    ensures k in db ==> Hydrated(db, now, cs)[k] == db[k]
    decreases |cs|
  {
    if cs != [] {
      var init := cs[..|cs| - 1];
      var last := cs[|cs| - 1];
      assert k != last.id by { assert cs[|cs| - 1].id == last.id; }
      HydratedTouchesOnlyIds(db, now, init, k);
      var before := Hydrated(db, now, init);
      var after := Hydrated(db, now, cs);
      assert after - {last.id} == before - {last.id};
      assert k in after <==> k in (after - {last.id});
      assert k in before <==> k in (before - {last.id});
      if k in db {
        assert after[k] == (after - {last.id})[k];
        assert before[k] == (before - {last.id})[k];
      }
    }
  }

  /** Writing one more config extends the hydration by that config. */
  lemma HydratedSnoc(db: Entries, now: int, cs: seq<RateLimiter>, i: nat)
    requires i < |cs|
    ensures Hydrated(db, now, cs[..i + 1]) == StoreConfig(Hydrated(db, now, cs[..i]), now, cs[i].id, cs[i].limit, cs[i].resetAfter)
  {
    assert cs[..i + 1][..i] == cs[..i];
  }

  /** Right after hydration, every config of a scan with distinct ids reads
      back from Redis with its own limit and window. */
  lemma {:induction false} HydratedReadsBack(db: Entries, now: int, cs: seq<RateLimiter>, i: nat)
    requires DistinctIds(cs)
    requires i < |cs|
    ensures GetRateLimitConfig(Hydrated(db, now, cs), now, cs[i].id, true) == ConfigReply(cs[i].limit, cs[i].resetAfter, None)
    decreases |cs|
  {
    var init := cs[..|cs| - 1];
    var last := cs[|cs| - 1];
    if i < |cs| - 1 {
      HydratedReadsBack(db, now, init, i);
      var before := Hydrated(db, now, init);
      var after := Hydrated(db, now, cs);
      var k := cs[i].id;
      assert k != last.id;
      assert k in after <==> k in before by {
        assert after - {last.id} == before - {last.id};
      }
      assert k in before;
      assert after[k] == (after - {last.id})[k];
    }
  }

  /** Reads the whole table and writes each config into Redis in scan
      order. Write number i fails exactly when i is in failedWrites. Returns
      the error, the scan and, for the proof, how many configs were written. */
  method LoadConfigFromDBToRedis(db: DurableStore, cache: FastStore, scanReached: bool, failedWrites: set<nat>)
    returns (err: Option<StoreError>, ghost scanned: seq<RateLimiter>, ghost written: nat)
    modifies cache
    ensures cache.now == old(cache.now)
    ensures !scanReached ==> err == Some(Unreachable) && cache.entries == old(cache.entries)
    ensures scanReached ==> IsScanOf(scanned, db.rows)
    ensures written <= |scanned|
    ensures forall i :: 0 <= i < written ==> i !in failedWrites
    ensures err.None? <==> scanReached && written == |scanned|
    ensures scanReached && written < |scanned| ==> written in failedWrites && err == Some(Unreachable)
    ensures cache.entries == Hydrated(old(cache.entries), cache.now, scanned[..written])
  {
    scanned, written := [], 0;
    var rateLimits := db.GetAllRateLimitConfigs(scanReached);
    if rateLimits.Err? {
      return Some(rateLimits.error), scanned, written;
    }
    var configs := rateLimits.value;
    scanned := configs;
    var i := 0;
    while i < |configs|
      invariant 0 <= i <= |configs|
      invariant cache.now == old(cache.now)
      invariant forall j :: 0 <= j < i ==> j !in failedWrites
      invariant cache.entries == Hydrated(old(cache.entries), cache.now, configs[..i])
    {
      var rateLimit := configs[i];
      err := InitializeRateLimitConfig(cache, rateLimit.id, rateLimit.limit, rateLimit.resetAfter, i !in failedWrites);
      if err.Some? {
        return err, scanned, i;
      }
      HydratedSnoc(old(cache.entries), cache.now, configs, i);
      i := i + 1;
    }
    assert configs[..i] == configs;
    return None, scanned, i;
  }
}
