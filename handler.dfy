/** The HTTP handlers of api/handler.go, as methods over the two stores that
    return an outcome instead of writing a response. Each handler has a
    specification function over a snapshot of both stores (OnCreate, OnGet,
    OnUpdate, OnDelete, OnCheck); the methods are proved to behave as those
    functions say, and the properties of the handlers are lemmas about them.

    Which store calls fail in a request is an input: `down` holds the call
    sites whose round trip does not reach its store. */
module Api {
  import opened Common
  import opened Codec
  import opened Redis
  import opened RedisClient
  import opened Cassandra

  /** The JSON body of create and update requests (api/handler.go). */
  datatype RateLimitConfig = RateLimitConfig(id: string, limit: Int64, resetAfter: Int64)

  datatype Body = Config(config: RateLimitConfig) | Admitted

  /** The HTTP status a handler writes, with the body that matters. */
  datatype Outcome =
    | Created(config: RateLimitConfig)  // 201
    | OK(body: Body)                    // 200
    | NoContent                         // 204
    | BadRequest                        // 400
    | NotFound                          // 404
    | TooManyRequests                   // 429
    | InternalServerError               // 500

  /** The store calls a handler can make; each appears at most once per request. */
  datatype Call =
    | GetConfigCall   // redis.GetRateLimitConfig
    | LoadCall        // cc.LoadRateLimitConfig
    | SaveCall        // cc.SaveRateLimitConfig
    | DeleteRowCall   // cc.DeleteRateLimitConfig
    | SetConfigCall   // redis.InitializeRateLimitConfig or redis.UpdateRateLimitConfig
    | DeleteKeysCall  // redis.DeleteRateLimitConfig
    | GetCountCall    // redis.GetCurrentRequests
    | IncrCall        // the INCR of redis.IncrementCurrentRequests
    | ExpireCall      // the EXPIRE of redis.IncrementCurrentRequests

  /** A snapshot of both stores: the Redis key space and the rate_limits table. */
  datatype Stores = Stores(cache: Entries, rows: Rows)

  datatype Response = Response(outcome: Outcome, after: Stores)

  /** The config lookup the handlers share: Redis first, and Cassandra only
      when Redis yields no decodable record. */
  function FindConfig(s: Stores, now: int, id: string, down: set<Call>): (r: ConfigReply) {
    var fast := GetRateLimitConfig(s.cache, now, id, GetConfigCall !in down);
    if !fast.Failed() then fast else LoadRateLimitConfig(s.rows, id, LoadCall !in down)
  }

  /** POST /api/v1/rate-limit. */
  function OnCreate(s: Stores, now: int, body: Option<RateLimitConfig>, down: set<Call>): (r: Response) {
    if body.None? then Response(BadRequest, s)
    else
      var c := body.value;
      if SaveCall in down then Response(InternalServerError, s)
      else
        var rows := Upsert(s.rows, c.id, c.limit, c.resetAfter);
        if SetConfigCall in down then Response(InternalServerError, Stores(s.cache, rows))
        else Response(Created(c), Stores(StoreConfig(s.cache, now, c.id, c.limit, c.resetAfter), rows))
  }

  /** GET /api/v1/rate-limit?id=. */
  function OnGet(s: Stores, now: int, id: string, down: set<Call>): (out: Outcome) {
    var found := FindConfig(s, now, id, down);
    if found.Failed() then NotFound
    else OK(Config(RateLimitConfig(id, found.limit, found.resetAfter)))
  }

  /** PUT /api/v1/rate-limit?id=: the query id must have a config; the writes
      then go to the id in the body. */
  function OnUpdate(s: Stores, now: int, id: string, body: Option<RateLimitConfig>, down: set<Call>): (r: Response) {
    if FindConfig(s, now, id, down).Failed() then Response(NotFound, s)
    else if body.None? then Response(BadRequest, s)
    else
      var c := body.value;
      if SaveCall in down then Response(InternalServerError, s)
      else
        var rows := Upsert(s.rows, c.id, c.limit, c.resetAfter);
        if SetConfigCall in down then Response(InternalServerError, Stores(s.cache, rows))
        else Response(OK(Config(c)), Stores(StoreConfig(s.cache, now, c.id, c.limit, c.resetAfter), rows))
  }

  /** DELETE /api/v1/rate-limit?id=. */
  function OnDelete(s: Stores, id: string, down: set<Call>): (r: Response) {
    if DeleteRowCall in down then Response(InternalServerError, s)
    else
      var rows := s.rows - {id};
      if DeleteKeysCall in down then Response(InternalServerError, Stores(s.cache, rows))
      else Response(NoContent, Stores(DeleteEffect(s.cache, id), rows))
  }

  /** POST /api/v1/check-rate-limit: look the config up, read the count,
      compare, then increment. */
  function OnCheck(s: Stores, now: int, body: Option<string>, down: set<Call>): (r: Response) {
    if body.None? then Response(BadRequest, s)
    else
      var id := body.value;
      var found := FindConfig(s, now, id, down);
      if found.Failed() then Response(NotFound, s)
      else
        var count := GetCurrentRequests(s.cache, now, id, GetCountCall !in down);
        if count.Err? then Response(InternalServerError, s)
        else if count.value >= found.limit then Response(TooManyRequests, s)
        else
          // time.Duration(resetAfter): the window in seconds, passed as nanoseconds
          var inc := IncrementEffect(s.cache, now, id, found.resetAfter, IncrCall !in down, ExpireCall !in down);
          var s' := Stores(inc.after, s.rows);
          if inc.result.Err? then Response(InternalServerError, s') else Response(OK(Admitted), s')
  }

  /** The service: the handlers over the shared Redis and Cassandra stores. */
  class Service {
    const cache: FastStore
    const db: DurableStore

    constructor (cache: FastStore, db: DurableStore)
      ensures this.cache == cache && this.db == db
    {
      this.cache := cache;
      this.db := db;
    }

    function State(): Stores
      reads cache, db
    {
      Stores(cache.entries, db.rows)
    }

    method HandleCreateRateLimit(body: Option<RateLimitConfig>, down: set<Call>) returns (out: Outcome)
      modifies cache, db
      ensures cache.now == old(cache.now)
      ensures Response(out, State()) == OnCreate(old(State()), cache.now, body, down)
    {
      if body.None? {
        return BadRequest;
      }
      var config := body.value;
      var err := db.SaveRateLimitConfig(config.id, config.limit, config.resetAfter, SaveCall !in down);
      if err.Some? {
        return InternalServerError;
      }
      err := InitializeRateLimitConfig(cache, config.id, config.limit, config.resetAfter, SetConfigCall !in down);
      if err.Some? {
        return InternalServerError;
      }
      return Created(config);
    }

    method HandleGetRateLimit(id: string, down: set<Call>) returns (out: Outcome)
      ensures out == OnGet(State(), cache.now, id, down)
    {
      var found := GetRateLimitConfig(cache.entries, cache.now, id, GetConfigCall !in down);
      if found.Failed() {
        found := LoadRateLimitConfig(db.rows, id, LoadCall !in down);
        if found.Failed() {
          return NotFound;
        }
      }
      return OK(Config(RateLimitConfig(id, found.limit, found.resetAfter)));
    }

    method HandleUpdateRateLimit(id: string, body: Option<RateLimitConfig>, down: set<Call>) returns (out: Outcome)
      modifies cache, db
      ensures cache.now == old(cache.now)
      ensures Response(out, State()) == OnUpdate(old(State()), cache.now, id, body, down)
    {
      var found := GetRateLimitConfig(cache.entries, cache.now, id, GetConfigCall !in down);
      if found.Failed() {
        found := LoadRateLimitConfig(db.rows, id, LoadCall !in down);
        if found.Failed() {
          return NotFound;
        }
      }
      if body.None? {
        return BadRequest;
      }
      var config := body.value;
      var err := db.SaveRateLimitConfig(config.id, config.limit, config.resetAfter, SaveCall !in down);
      if err.Some? {
        return InternalServerError;
      }
      err := UpdateRateLimitConfig(cache, config.id, config.limit, config.resetAfter, SetConfigCall !in down);
      if err.Some? {
        return InternalServerError;
      }
      return OK(Config(config));
    }

    method HandleDeleteRateLimit(id: string, down: set<Call>) returns (out: Outcome)
      modifies cache, db
      ensures cache.now == old(cache.now)
      ensures Response(out, State()) == OnDelete(old(State()), id, down)
    {
      var err := db.DeleteRateLimitConfig(id, DeleteRowCall !in down);
      if err.Some? {
        return InternalServerError;
      }
      err := DeleteRateLimitConfig(cache, id, DeleteKeysCall !in down);
      if err.Some? {
        return InternalServerError;
      }
      return NoContent;
    }

    method HandleCheckRateLimit(body: Option<string>, down: set<Call>) returns (out: Outcome)
      modifies cache
      ensures cache.now == old(cache.now)
      ensures Response(out, State()) == OnCheck(old(State()), cache.now, body, down)
    {
      if body.None? {
        return BadRequest;
      }
      var id := body.value;
      var found := GetRateLimitConfig(cache.entries, cache.now, id, GetConfigCall !in down);
      if found.Failed() {
        found := LoadRateLimitConfig(db.rows, id, LoadCall !in down);
        if found.Failed() {
          return NotFound;
        }
      }
      var currentRequests := GetCurrentRequests(cache.entries, cache.now, id, GetCountCall !in down);
      if currentRequests.Err? {
        return InternalServerError;
      }
      if currentRequests.value >= found.limit {
        return TooManyRequests;
      }
      var n := IncrementCurrentRequests(cache, id, found.resetAfter, IncrCall !in down, ExpireCall !in down);
      if n.Err? {
        return InternalServerError;
      }
      return OK(Admitted);
    }
  }

  // ---------------------------------------------------------------------
  // Config lookup

  /** When Redis yields a decodable record, Cassandra is not consulted: the
      lookup, Get and Check give the same answer whatever the table holds. */
  lemma FastHitIgnoresTable(cache: Entries, rows1: Rows, rows2: Rows, now: int, id: string, down: set<Call>)
    requires !GetRateLimitConfig(cache, now, id, GetConfigCall !in down).Failed()
    ensures FindConfig(Stores(cache, rows1), now, id, down) == GetRateLimitConfig(cache, now, id, true)
    ensures FindConfig(Stores(cache, rows1), now, id, down) == FindConfig(Stores(cache, rows2), now, id, down)
    ensures OnGet(Stores(cache, rows1), now, id, down) == OnGet(Stores(cache, rows2), now, id, down)
    ensures OnCheck(Stores(cache, rows1), now, Some(id), down).outcome == OnCheck(Stores(cache, rows2), now, Some(id), down).outcome
    ensures OnCheck(Stores(cache, rows1), now, Some(id), down).after.cache == OnCheck(Stores(cache, rows2), now, Some(id), down).after.cache
  {
  }

  /** On a Redis miss the lookup answers exactly what Cassandra answers. */
  lemma MissFallsBackToTable(s: Stores, now: int, id: string, down: set<Call>)
    requires GetRateLimitConfig(s.cache, now, id, GetConfigCall !in down).Failed()
    ensures FindConfig(s, now, id, down) == LoadRateLimitConfig(s.rows, id, LoadCall !in down)
    ensures OnGet(s, now, id, down) ==
      if id in s.rows && LoadCall !in down then OK(Config(RateLimitConfig(id, s.rows[id].limit, s.rows[id].resetAfter)))
      else NotFound
  {
  }

  // ---------------------------------------------------------------------
  // Check

  /** Check answers NotFound exactly when neither store yields a config, and
      then changes nothing. */
  lemma CheckNotFound(s: Stores, now: int, id: string, down: set<Call>)
    ensures OnCheck(s, now, Some(id), down).outcome == NotFound <==>
      GetRateLimitConfig(s.cache, now, id, GetConfigCall !in down).Failed() && LoadRateLimitConfig(s.rows, id, LoadCall !in down).Failed()
    ensures OnCheck(s, now, Some(id), down).outcome == NotFound ==> OnCheck(s, now, Some(id), down).after == s
  {
  }

  /** An id with no decodable record in Redis and no row in Cassandra is NotFound. */
  lemma CheckUnknownId(s: Stores, now: int, id: string, down: set<Call>)
    requires Get(s.cache, now, id).None? || Get(s.cache, now, id).value.Decimal?
    requires id !in s.rows
    ensures OnCheck(s, now, Some(id), down) == Response(NotFound, s)
  {
  }

  /** Once a config is found and the count is read, Check answers
      TooManyRequests exactly when the count read is at least the limit, and
      then increments nothing. */
  lemma CheckDeniesExactlyAtLimit(s: Stores, now: int, id: string, down: set<Call>)
    requires !FindConfig(s, now, id, down).Failed()
    requires GetCurrentRequests(s.cache, now, id, GetCountCall !in down).Ok?
    ensures OnCheck(s, now, Some(id), down).outcome == TooManyRequests <==>
      GetCurrentRequests(s.cache, now, id, GetCountCall !in down).value >= FindConfig(s, now, id, down).limit
    ensures OnCheck(s, now, Some(id), down).outcome == TooManyRequests ==> OnCheck(s, now, Some(id), down).after == s
  {
  }

  /** Check admits only when the count read is below the limit and the
      increment succeeds; the increment happens exactly once, at key id, with
      the window passed as time.Duration(resetAfter), and the table is untouched. */
  lemma CheckAdmitsOnlyBelowLimit(s: Stores, now: int, id: string, down: set<Call>)
    requires OnCheck(s, now, Some(id), down).outcome == OK(Admitted)
    ensures !FindConfig(s, now, id, down).Failed()
    ensures GetCurrentRequests(s.cache, now, id, GetCountCall !in down).Ok?
    ensures GetCurrentRequests(s.cache, now, id, GetCountCall !in down).value < FindConfig(s, now, id, down).limit
    ensures IncrementEffect(s.cache, now, id, FindConfig(s, now, id, down).resetAfter, IncrCall !in down, ExpireCall !in down).result.Ok?
    ensures OnCheck(s, now, Some(id), down).after ==
      Stores(IncrementEffect(s.cache, now, id, FindConfig(s, now, id, down).resetAfter, IncrCall !in down, ExpireCall !in down).after, s.rows)
  {
  }

  /** Any failure of the count read (an unreached GET, or text Atoi rejects)
      is a server error that changes nothing. Below the limit, any failure of
      the increment (an unreached INCR, an INCR on non-integer text or at the
      largest int64, or an unreached EXPIRE) is a server error, and the key
      space is whatever the increment left behind. */
  lemma CheckServerErrors(s: Stores, now: int, id: string, down: set<Call>)
    requires !FindConfig(s, now, id, down).Failed()
    ensures GetCurrentRequests(s.cache, now, id, GetCountCall !in down).Err? ==>
      OnCheck(s, now, Some(id), down) == Response(InternalServerError, s)
    ensures GetCurrentRequests(s.cache, now, id, GetCountCall !in down).Ok? &&
            GetCurrentRequests(s.cache, now, id, GetCountCall !in down).value < FindConfig(s, now, id, down).limit &&
            IncrementEffect(s.cache, now, id, FindConfig(s, now, id, down).resetAfter, IncrCall !in down, ExpireCall !in down).result.Err? ==>
              OnCheck(s, now, Some(id), down) ==
                Response(InternalServerError,
                  Stores(IncrementEffect(s.cache, now, id, FindConfig(s, now, id, down).resetAfter, IncrCall !in down, ExpireCall !in down).after, s.rows))
  {
  }

  /** A Check whose EXPIRE fails after the first INCR answers 500 and leaves
      a counter of 1 under id that never expires. */
  lemma CheckExpireFailureLeavesImmortalCounter(s: Stores, now: int, id: string, down: set<Call>)
    requires !FindConfig(s, now, id, down).Failed()
    requires GetCurrentRequests(s.cache, now, id, GetCountCall !in down).Ok?
    requires GetCurrentRequests(s.cache, now, id, GetCountCall !in down).value < FindConfig(s, now, id, down).limit
    requires IncrCall !in down && ExpireCall in down
    requires !Live(s.cache, now, id)
    ensures OnCheck(s, now, Some(id), down).outcome == InternalServerError
    ensures id in OnCheck(s, now, Some(id), down).after.cache
    ensures OnCheck(s, now, Some(id), down).after.cache[id] == Entry(Decimal(1), None)
    ensures forall t :: Get(OnCheck(s, now, Some(id), down).after.cache, t, id) == Some(Decimal(1))
  {
  }

  /** While Redis holds the config record under id, Check never admits: the
      increment lands on that record, which is not an integer. */
  lemma CachedConfigBlocksAdmission(s: Stores, now: int, id: string, down: set<Call>)
    requires !GetRateLimitConfig(s.cache, now, id, GetConfigCall !in down).Failed()
    ensures OnCheck(s, now, Some(id), down).outcome != OK(Admitted)
    ensures OnCheck(s, now, Some(id), down).after == s
  {
  }

  /** Check of id never changes the count that the next Check of id reads. */
  lemma CheckNeverMovesCount(s: Stores, now: int, id: string, down: set<Call>, reached: bool)
    ensures GetCurrentRequests(OnCheck(s, now, Some(id), down).after.cache, now, id, reached)
         == GetCurrentRequests(s.cache, now, id, reached)
  {
    var found := FindConfig(s, now, id, down);
    if !found.Failed() {
      IncrementNeverMovesCount(s.cache, now, id, found.resetAfter, IncrCall !in down, ExpireCall !in down, reached);
    }
  }

  /** The count of id moves only when some other id is literally
      id + ":current_requests": checks of that id increment the very key that
      checks of id read their count from. */
  lemma AliasIdMovesCount(s: Stores, now: int, id: string)
    requires CounterKey(id) in s.rows && s.rows[CounterKey(id)].limit > 0
    requires !Live(s.cache, now, CounterKey(id)) && !Live(s.cache, now, CounterKey(CounterKey(id)))
    requires s.rows[CounterKey(id)].resetAfter > 0
    ensures GetCurrentRequests(s.cache, now, id, true) == Ok(0)
    ensures OnCheck(s, now, Some(CounterKey(id)), {}).outcome == OK(Admitted)
    ensures GetCurrentRequests(OnCheck(s, now, Some(CounterKey(id)), {}).after.cache, now, id, true) == Ok(1)
  {
    assert |CounterKey(CounterKey(id))| == |CounterKey(id)| + 17;
  }

  // ---------------------------------------------------------------------
  // Check, repeated: the quota is never enforced

  /** The outcomes of n checks of id in a row at one instant, none failing
      to reach its store. */
  function CheckRun(s: Stores, now: int, id: string, n: nat): (outs: seq<Outcome>)
    ensures |outs| == n
    decreases n
  {
    if n == 0 then []
    else
      var r := OnCheck(s, now, Some(id), {});
      [r.outcome] + CheckRun(r.after, now, id, n - 1)
  }

  /** id has a row with a positive limit, nothing has been written under
      id:current_requests, and key id holds at most a small counter. */
  predicate Unmetered(s: Stores, now: int, id: string, budget: nat) {
    && id in s.rows && s.rows[id].limit > 0
    && !Live(s.cache, now, CounterKey(id))
    && match Get(s.cache, now, id)
       case None => budget < MAX_INT64
       case Some(v) => v.Decimal? && 0 <= v.n && v.n + budget < MAX_INT64
  }

  lemma CheckStep(s: Stores, now: int, id: string, budget: nat)
    requires Unmetered(s, now, id, budget + 1)
    ensures OnCheck(s, now, Some(id), {}).outcome == OK(Admitted)
    ensures Unmetered(OnCheck(s, now, Some(id), {}).after, now, id, budget)
  {
    var found := FindConfig(s, now, id, {});
    assert found == ConfigReply(s.rows[id].limit, s.rows[id].resetAfter, None);
    assert GetCurrentRequests(s.cache, now, id, true) == Ok(0);
    var after := IncrementEffect(s.cache, now, id, found.resetAfter, true, true).after;
    assert |CounterKey(id)| == |id| + 17;
    assert CounterKey(id) in after <==> CounterKey(id) in s.cache;
    if CounterKey(id) in after {
      assert after[CounterKey(id)] == (after - {id})[CounterKey(id)];
    }
  }

  /** With a row of any positive limit L in Cassandra and nothing under the
      id in Redis, every one of n checks at the same instant is admitted, for
      n = L + 1 and far beyond: the count read stays 0. */
  lemma {:induction false} QuotaNeverEnforced(s: Stores, now: int, id: string, n: nat)
    requires Unmetered(s, now, id, n)
    ensures forall i :: 0 <= i < n ==> CheckRun(s, now, id, n)[i] == OK(Admitted)
    decreases n
  {
    if n > 0 {
      CheckStep(s, now, id, n - 1);
      var r := OnCheck(s, now, Some(id), {});
      QuotaNeverEnforced(r.after, now, id, n - 1);
      assert CheckRun(s, now, id, n) == [r.outcome] + CheckRun(r.after, now, id, n - 1);
    }
  }

  /** A concrete instance: limit 3, and the fourth check is still admitted. */
  lemma FourthCheckAdmitted(rows: Rows, now: int, resetAfter: Int64)
    requires "x" in rows && rows["x"] == Row(3, resetAfter)
    ensures CheckRun(Stores(map[], rows), now, "x", 4)[3] == OK(Admitted)
  {
    QuotaNeverEnforced(Stores(map[], rows), now, "x", 4);
  }

  // ---------------------------------------------------------------------
  // Create, Update, Delete

  /** Create writes Cassandra first: if that fails nothing changes; if Redis
      fails afterwards the row stays written; on success both stores yield
      the new config. */
  lemma CreateWritesTableFirst(s: Stores, now: int, c: RateLimitConfig, down: set<Call>)
    ensures SaveCall in down ==> OnCreate(s, now, Some(c), down) == Response(InternalServerError, s)
    ensures SaveCall !in down && SetConfigCall in down ==>
      OnCreate(s, now, Some(c), down) == Response(InternalServerError, Stores(s.cache, Upsert(s.rows, c.id, c.limit, c.resetAfter)))
    ensures OnCreate(s, now, Some(c), down).outcome == Created(c) <==> SaveCall !in down && SetConfigCall !in down
    ensures OnCreate(s, now, Some(c), down).outcome == Created(c) ==>
      && LoadRateLimitConfig(OnCreate(s, now, Some(c), down).after.rows, c.id, true) == ConfigReply(c.limit, c.resetAfter, None)
      && GetRateLimitConfig(OnCreate(s, now, Some(c), down).after.cache, now, c.id, true) == ConfigReply(c.limit, c.resetAfter, None)
  {
  }

  /** Update answers NotFound before decoding the body or writing anything
      when the query id is in neither store. */
  lemma UpdateNotFoundFirst(s: Stores, now: int, id: string, body: Option<RateLimitConfig>, down: set<Call>)
    requires FindConfig(s, now, id, down).Failed()
    ensures OnUpdate(s, now, id, body, down) == Response(NotFound, s)
  {
  }

  /** Update writes Cassandra first, under the body's id rather than the
      query id: it answers 200 exactly when both writes reach their stores,
      and then both stores return the body's config under the body's id;
      what is stored under any other id, the query id included, does not
      change. */
  lemma UpdateWritesBodyId(s: Stores, now: int, id: string, c: RateLimitConfig, down: set<Call>, other: string)
    requires !FindConfig(s, now, id, down).Failed()
    requires other != c.id
    ensures SaveCall in down ==> OnUpdate(s, now, id, Some(c), down) == Response(InternalServerError, s)
    ensures SaveCall !in down && SetConfigCall in down ==>
      OnUpdate(s, now, id, Some(c), down) == Response(InternalServerError, Stores(s.cache, Upsert(s.rows, c.id, c.limit, c.resetAfter)))
    ensures OnUpdate(s, now, id, Some(c), down).outcome == OK(Config(c)) <==> SaveCall !in down && SetConfigCall !in down
    ensures OnUpdate(s, now, id, Some(c), down).outcome == OK(Config(c)) ==>
      && LoadRateLimitConfig(OnUpdate(s, now, id, Some(c), down).after.rows, c.id, true) == ConfigReply(c.limit, c.resetAfter, None)
      && GetRateLimitConfig(OnUpdate(s, now, id, Some(c), down).after.cache, now, c.id, true) == ConfigReply(c.limit, c.resetAfter, None)
    ensures LoadRateLimitConfig(OnUpdate(s, now, id, Some(c), down).after.rows, other, true) == LoadRateLimitConfig(s.rows, other, true)
    ensures GetRateLimitConfig(OnUpdate(s, now, id, Some(c), down).after.cache, now, other, true) == GetRateLimitConfig(s.cache, now, other, true)
  {
    var r := OnUpdate(s, now, id, Some(c), down);
    assert other in r.after.rows <==> other in s.rows;
    assert Live(r.after.cache, now, other) <==> Live(s.cache, now, other);
    if other in s.cache {
      assert r.after.cache[other] == (r.after.cache - {c.id})[other];
    }
  }

  /** Delete removes the row first and touches Redis only if that succeeded;
      it answers NoContent exactly when both deletes reach their stores. */
  lemma DeleteRemovesRowFirst(s: Stores, id: string, down: set<Call>)
    ensures DeleteRowCall in down ==> OnDelete(s, id, down) == Response(InternalServerError, s)
    ensures DeleteRowCall !in down && DeleteKeysCall in down ==>
      OnDelete(s, id, down) == Response(InternalServerError, Stores(s.cache, s.rows - {id}))
    ensures OnDelete(s, id, down).outcome == NoContent <==> DeleteRowCall !in down && DeleteKeysCall !in down
    ensures OnDelete(s, id, down).outcome == NoContent ==> LoadRateLimitConfig(OnDelete(s, id, down).after.rows, id, true) == Failure(NoRow)
  {
  }

  /** Delete leaves the config record under id in Redis: after a successful
      delete, Get still answers with the deleted config, and Check still
      finds it, until the record's TTL runs out. */
  lemma DeletedConfigStillServed(s: Stores, now: int, id: string)
    requires !GetRateLimitConfig(s.cache, now, id, true).Failed()
    ensures OnDelete(s, id, {}).outcome == NoContent
    ensures OnGet(OnDelete(s, id, {}).after, now, id, {}) == OnGet(s, now, id, {})
    ensures OnCheck(OnDelete(s, id, {}).after, now, Some(id), {}).outcome != NotFound
  {
    DeleteKeepsConfigRecord(s.cache, now, id, true);
  }
}
