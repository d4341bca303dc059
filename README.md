# Rate limiter: admission decision and two-store protocol

A Dafny model of the core of a Go rate limiter. Each client id has a quota: a
`limit` of requests per window of `reset_after` seconds. The service keeps
quota configurations in two stores:

- a Cassandra table `rate_limits`, keyed by id, which is the durable copy;
- a Redis key space with per-key expiry, which serves as a cache of the
  configurations and holds the request counters.

Five HTTP handlers create, read, update and delete configurations and check
whether a request is admitted. At startup, `LoadConfigFromDBToRedis` copies
every row of the table into Redis.

The model has one module per core file, plus two support modules:

- `Common` holds Go's int64, time.Duration units and the error kinds.
- `Codec` holds the JSON record and the decimal text stored in Redis.
- `Redis` models the Redis commands the client issues: GET, SET with EX, PX
  or KEEPTTL, INCR, EXPIRE, and MULTI/DEL/EXEC. They act on a map from key to
  value and expiry instant. `FastStore` is the server, holding that map and a
  nanosecond clock.
- `RedisClient` models internal/redis/redis_client.go:
  - the literal key layout: `id`, `id:current_requests`, `id:limit` and
    `id:reset_after`;
  - go-redis v8's translation of time.Duration arguments into SET and EXPIRE
    options;
  - the six client operations.
- `Cassandra` models internal/cassandra/cassandra_client.go. The table is a
  map from id to row. `DurableStore` holds it and runs the INSERT, UPDATE,
  DELETE and full-scan statements; the single-row SELECT is a function.
- `Api` models api/handler.go. Each handler is a method of `Service`, which
  holds both stores and returns an `Outcome` (the HTTP status with the body
  that matters). Each method is proved equal to a specification function
  over a snapshot of both stores (`OnCreate`, `OnGet`, `OnUpdate`,
  `OnDelete`, `OnCheck`). The behavioural properties are lemmas about those
  functions.
- `Bootstrap` models `LoadConfigFromDBToRedis` in cmd/rate-limiter/main.go.

Network failures are explicit inputs:

- Every store call takes a `reached` flag.
- A handler takes the set `down` of call sites that fail during the request.
- Hydration takes the set of write positions that fail.

A failed call changes nothing and reports `Unreachable`.

Three behaviours of the code are stated as lemmas:

- The admission counter is incremented under key `id`, but the count is read
  from `id:current_requests`. Requests for `id` never write that key. A
  request or row whose own id is literally `id:current_requests` does: a
  Create with that id, an Update whose body carries it, a Check of it
  (`AliasIdMovesCount`), or hydration of a row with that id. A check therefore never moves the count it compares
  against the limit (`IncrementNeverMovesCount`, `CheckNeverMovesCount`), and
  any positive quota admits without bound (`QuotaNeverEnforced`; with a limit
  of 3, `FourthCheckAdmitted`). While the config record is cached under `id`,
  the INCR hits that JSON text and every admission fails instead
  (`CachedConfigBlocksAdmission`).
- The counter's expiry is passed as `time.Duration(resetAfter)`, which means
  `resetAfter` nanoseconds, while the config TTL is `resetAfter` seconds.
  After go-redis rounds it, every positive window shorter than 10^9 seconds
  gives the counter a one-second life (`FirstIncrementLivesOneSecond`); a
  non-positive window deletes the counter as soon as it is created
  (`FirstIncrementVanishesWithoutWindow`). If that EXPIRE
  fails, the check answers 500 and the counter never expires
  (`CheckExpireFailureLeavesImmortalCounter`).
- Delete removes `id:limit`, `id:reset_after` and `id:current_requests`.
  Requests for `id` write none of these keys; only a request or row whose
  own id is one of them does. The config record under `id`
  stays, and Get and Check keep serving the deleted config until its TTL runs
  out (`DeleteKeepsConfigRecord`, `DeletedConfigStillServed`).

The code does not do the following, and neither does the model:

- There is no atomic increment-and-compare: Check reads the count, compares
  it, then increments.
- There is no create-if-absent: every config write is an unconditional SET
  that replaces the record and its TTL (`ConfigTtlNeverKeepsTtl`).
- A Redis miss in Check or Get reads Cassandra but does not write the config
  back to Redis.
- Hydration does not continue past a failed write: it stops at the first one
  and returns its error.
- `main` does not act on the error `LoadConfigFromDBToRedis` returns. A
  failed scan after connecting, or a failed Redis write, is ignored and the
  server starts anyway. An unreachable cluster is still fatal, because
  `NewCassandraClient` calls `log.Fatalf` when it cannot open a session
  (internal/cassandra/cassandra_client.go:19-22).
- A lookup does not distinguish Cassandra errors. Any error of the SELECT
  itself, after the session is open, answers 404 rather than 500. In the
  model, `Unreachable` on a Cassandra call stands for such a query error: a
  cluster that cannot be reached at all ends the process when the handler
  opens its session (api/handler.go:55, :76, :143).
- Update does not write under the query id: it writes the table through
  `SaveRateLimitConfig` (an INSERT) under the body's id.

## Model

| member | source | states |
|---|---|---|
| RedisClient.CounterKey | internal/redis/redis_client.go:117 | the key id + ":current_requests" that Delete removes and GetCurrentRequests reads (also line 131); its promise is KeyLayout |
| RedisClient.LimitKey | internal/redis/redis_client.go:115 | the key id + ":limit" that Delete removes; its promise is KeyLayout |
| RedisClient.ResetAfterKey | internal/redis/redis_client.go:116 | the key id + ":reset_after" that Delete removes; its promise is KeyLayout |
| RedisClient.KeyLayout | internal/redis/redis_client.go:115-117 | the bare id and its three suffixed keys are pairwise distinct, and each suffixed key determines its id |
| Codec.Marshal | internal/redis/redis_client.go:40-43 | the JSON record unmarshals back to the same limit and window, and is never readable as a counter |
| Codec.Unmarshal | internal/redis/redis_client.go:98-102 | only a JSON record decodes, into exactly the record stored; decimal text fails with the unmarshal error |
| Codec.Atoi | internal/redis/redis_client.go:141-144 | decimal text parses exactly when it lies in the int64 range; anything else is a parse error |
| Redis.Get | internal/redis/redis_client.go:93 | GET yields a value exactly when the key is present and unexpired, and that value is the stored one |
| Redis.SetCmd | internal/redis/redis_client.go:45 | after SET the key reads back the new value; no other key changes; the expiry is none, now + EX seconds or now + PX milliseconds as the option says |
| Redis.IncrCmd | internal/redis/redis_client.go:76 | INCR creates an absent or expired key as 1 without expiry, adds one to a live int64 decimal keeping its expiry, and fails with no change on MAX_INT64 or non-integer text; no other key changes |
| Redis.ExpireCmd | internal/redis/redis_client.go:82 | EXPIRE on a live key sets expiry now + seconds, or deletes it for a non-positive timeout; an absent key is left alone; no other key changes |
| Redis.FastStore.Set | internal/redis/redis_client.go:45 | a reached SET replaces the key space by SetCmd's result; an unreached one changes nothing and reports Unreachable |
| Redis.FastStore.Incr | internal/redis/redis_client.go:76 | a reached INCR yields IncrCmd's reply and key space; an unreached one changes nothing |
| Redis.FastStore.Expire | internal/redis/redis_client.go:82 | a reached EXPIRE applies ExpireCmd; an unreached one changes nothing |
| Redis.FastStore.Exec | internal/redis/redis_client.go:112-120 | the MULTI/DEL/EXEC block deletes all listed keys or, unreached, none |
| RedisClient.SetExpiryOption | internal/redis/redis_client.go:45 | go-redis sends a positive whole-second duration as EX, another positive one as PX within a millisecond of it, -1 as KEEPTTL, and no expiry otherwise |
| RedisClient.ExpireSeconds | internal/redis/redis_client.go:82 | go-redis sends an EXPIRE duration under one second as 1 second, otherwise truncated to whole seconds; a non-positive one stays non-positive |
| RedisClient.ConfigTtl | internal/redis/redis_client.go:45 | time.Duration(resetAfter)*time.Second is resetAfter * 10^9 ns whenever that fits in int64 |
| RedisClient.StoreConfig | internal/redis/redis_client.go:34-47 | after the SET, GetRateLimitConfig of id returns exactly the written limit and window; no other key changes |
| RedisClient.InitializeRateLimitConfig | internal/redis/redis_client.go:34-47 | a reached write leaves the key space as StoreConfig says; an unreached one changes nothing and returns the error |
| RedisClient.UpdateRateLimitConfig | internal/redis/redis_client.go:52-72 | same effect and errors as InitializeRateLimitConfig |
| RedisClient.IncrementEffect | internal/redis/redis_client.go:75-89 | only key id changes; a first increment yields 1 and its EXPIRE gives the counter now + ExpireSeconds(resetAfter) seconds or deletes it; a later one adds one keeping the expiry; a JSON value or an unreached INCR changes nothing and fails |
| RedisClient.IncrementCurrentRequests | internal/redis/redis_client.go:75-89 | the reply and key space are those of IncrementEffect, with early returns on a failed INCR or EXPIRE |
| RedisClient.GetRateLimitConfig | internal/redis/redis_client.go:92-105 | succeeds exactly when key id is live and holds a JSON record, returning that record's limit and window; failures carry zero values, and an absent key is redis.Nil |
| RedisClient.GetCurrentRequests | internal/redis/redis_client.go:129-147 | reads id:current_requests: an absent key is 0, a live one is Atoi of its text, an unreached GET is an error |
| RedisClient.DeleteEffect | internal/redis/redis_client.go:110-126 | the transaction removes exactly id:limit, id:reset_after and id:current_requests and keeps every other key's value |
| RedisClient.DeleteRateLimitConfig | internal/redis/redis_client.go:110-126 | a reached delete leaves the key space as DeleteEffect says; an unreached one changes nothing and returns the error |
| RedisClient.ConfigLivesForItsWindow | internal/redis/redis_client.go:45 | a config with a window of r seconds (no overflow) reads back until now + r seconds and is gone from then on |
| RedisClient.ConfigWithoutWindowNeverExpires | internal/redis/redis_client.go:45 | a config with a non-positive window whose TTL does not wrap around (resetAfter >= -9223372036) is stored without expiry and reads back at any instant |
| RedisClient.ConfigTtlNeverKeepsTtl | internal/redis/redis_client.go:45 | the config TTL, even after 64-bit wrap-around, is never go-redis's KEEPTTL sentinel, so every config write replaces the old expiry |
| RedisClient.IncrementNeverMovesCount | internal/redis/redis_client.go:76-82 | incrementing id never changes what GetCurrentRequests of id returns, because the count is read from a different key |
| RedisClient.FirstIncrementLivesOneSecond | internal/redis/redis_client.go:81-82 | for any window of 1 to 10^9 - 1 seconds passed as a nanosecond Duration, the first increment creates a counter of 1 that expires after exactly one second |
| RedisClient.FirstIncrementVanishesWithoutWindow | internal/redis/redis_client.go:81-82 | with a non-positive window, the first increment reports 1 and leaves no counter behind |
| RedisClient.DeleteKeepsConfigRecord | internal/redis/redis_client.go:115-117 | after the delete, the config record under id reads back unchanged and the count reads 0 |
| Cassandra.Upsert | internal/cassandra/cassandra_client.go:30-31 | after INSERT or UPDATE, SELECT of id returns the written values; other rows are unchanged; the ids are the old ids plus id |
| Cassandra.LoadRateLimitConfig | internal/cassandra/cassandra_client.go:49-57 | succeeds exactly when the cluster is reached and the row exists, returning its values; a missing row is ErrNotFound; failures carry zero values |
| Cassandra.DurableStore.SaveRateLimitConfig | internal/cassandra/cassandra_client.go:28-35 | a reached INSERT upserts the row; an unreached one changes nothing and fails |
| Cassandra.DurableStore.UpdateRateLimitConfig | internal/cassandra/cassandra_client.go:40-46 | a reached UPDATE upserts the row; an unreached one changes nothing and fails |
| Cassandra.DurableStore.DeleteRateLimitConfig | internal/cassandra/cassandra_client.go:60-63 | a reached DELETE removes the row, missing or not; an unreached one changes nothing and fails |
| Cassandra.DurableStore.GetAllRateLimitConfigs | internal/cassandra/cassandra_client.go:65-88 | a reached scan returns each row exactly once with its own values, in some order; an error at Close discards the scan |
| Cassandra.ScanCoversTable | internal/cassandra/cassandra_client.go:65-88 | a scan has exactly as many records as the table has rows, and its ids are exactly the table's ids |
| Cassandra.SeqOfDistinctIds | internal/cassandra/cassandra_client.go:74-81 | records with pairwise distinct ids name as many ids as there are records |
| Cassandra.LoadAfterDeleteFails | internal/cassandra/cassandra_client.go:60-63 | after DELETE of id, SELECT of id finds no row |
| Api.FindConfig | api/handler.go:145-153 | the lookup Get (lines 52-61), Update (78-86) and Check share: Redis first, Cassandra only when Redis yields no decodable record; its promises are FastHitIgnoresTable and MissFallsBackToTable |
| Api.OnCreate | api/handler.go:20-45 | Create on a snapshot of both stores: 400, INSERT (500), SET (500, row kept), 201; its promises are CreateWritesTableFirst |
| Api.OnGet | api/handler.go:48-71 | Get on a snapshot: the found config or 404; its promises are FastHitIgnoresTable, MissFallsBackToTable and DeletedConfigStillServed |
| Api.OnUpdate | api/handler.go:74-110 | Update on a snapshot: lookup by the query id (404), body (400), INSERT then SET under the body's id (500 at the first failure), 200; its promises are UpdateNotFoundFirst and UpdateWritesBodyId |
| Api.OnDelete | api/handler.go:113-131 | Delete on a snapshot: DELETE of the row, then the Redis transaction, 500 at the first failure, else 204; its promises are DeleteRemovesRowFirst and DeletedConfigStillServed |
| Api.OnCheck | api/handler.go:134-175 | Check on a snapshot: 400, lookup (404), count read (500), count >= limit (429), increment (500), 200; its promises are the Check lemmas below |
| Api.Service.HandleCreateRateLimit | api/handler.go:20-45 | the outcome and both stores afterwards are OnCreate's: 400 on a bad body, 500 with nothing written if the INSERT fails, 500 with the row kept if the Redis write fails, else 201 echoing the config |
| Api.Service.HandleGetRateLimit | api/handler.go:48-71 | the outcome is OnGet's: the Redis record if it decodes, else the Cassandra row, else 404; nothing changes |
| Api.Service.HandleUpdateRateLimit | api/handler.go:74-110 | the outcome and stores afterwards are OnUpdate's: 404 if the query id is in neither store, 400 on a bad body, then the writes of Create under the body's id, answering 200 |
| Api.Service.HandleDeleteRateLimit | api/handler.go:113-131 | the outcome and stores afterwards are OnDelete's: delete the row, then the Redis keys, 500 at the first failure, else 204 |
| Api.Service.HandleCheckRateLimit | api/handler.go:134-175 | the outcome and stores afterwards are OnCheck's: 400, then lookup (404), then count read (500), then 429 when count >= limit, then increment (500), else 200 admitted |
| Api.FastHitIgnoresTable | api/handler.go:145-153 | when Redis yields a decodable record, the lookup, Get and Check answer the same whatever the table holds |
| Api.MissFallsBackToTable | api/handler.go:52-60 | on a Redis miss, the lookup is exactly the Cassandra SELECT, and Get answers the row or 404 |
| Api.CheckNotFound | api/handler.go:145-153 | Check answers 404 exactly when both stores fail the lookup, and then changes nothing |
| Api.CheckUnknownId | api/handler.go:145-153 | an id with no JSON record in Redis and no row in the table is 404 with nothing changed |
| Api.CheckDeniesExactlyAtLimit | api/handler.go:155-164 | once the config and count are read, Check answers 429 exactly when count >= limit, and then changes nothing |
| Api.CheckAdmitsOnlyBelowLimit | api/handler.go:155-174 | an admitted check found a config, read a count below its limit, and incremented key id once with the window as a Duration; the table is untouched |
| Api.CheckServerErrors | api/handler.go:155-171 | any failed count read (unreached GET, or text Atoi rejects) is 500 with nothing changed; below the limit, any failed increment (unreached INCR, INCR on non-integer text or at MAX_INT64, unreached EXPIRE) is 500 with the key space the increment left |
| Api.CheckExpireFailureLeavesImmortalCounter | api/handler.go:167-171 | when the first INCR succeeds and its EXPIRE fails, Check answers 500 and leaves a counter of 1 under id that reads back at every instant |
| Api.CachedConfigBlocksAdmission | api/handler.go:145-171 | while the config record is cached under id, Check never admits and changes nothing, because INCR hits the JSON text |
| Api.CheckNeverMovesCount | api/handler.go:155-167 | a Check of id never changes the count the next Check of id reads |
| Api.AliasIdMovesCount | api/handler.go:155-167 | a Check of id + ":current_requests" is admitted and raises the count read for id from 0 to 1 |
| Api.CheckStep | api/handler.go:155-174 | with a row of positive limit and no count key, a Check is admitted and keeps that state with one less headroom |
| Api.QuotaNeverEnforced | api/handler.go:155-174 | with a row of positive limit and nothing under id in Redis, every one of n consecutive checks is admitted, for any n |
| Api.FourthCheckAdmitted | api/handler.go:161-174 | with limit 3, the fourth check in a row is admitted |
| Api.CreateWritesTableFirst | api/handler.go:28-43 | Create writes the table, then Redis: a failed INSERT changes nothing; a failed SET keeps the row; 201 exactly when both succeed, and then both stores return the new config |
| Api.UpdateNotFoundFirst | api/handler.go:78-86 | Update answers 404 before reading the body or writing anything when the query id is in neither store |
| Api.UpdateWritesBodyId | api/handler.go:88-109 | Update writes under the body's id: a failed INSERT changes nothing, a failed SET keeps the row; 200 exactly when both writes reach their stores, and then both stores return the body's config under its id; what either store holds for any other id, the query id included, is unchanged |
| Api.DeleteRemovesRowFirst | api/handler.go:113-131 | Delete removes the row first and touches Redis only after; 204 exactly when both succeed, and then the row is gone |
| Api.DeletedConfigStillServed | api/handler.go:113-131 | after a successful delete of a cached id, Get still returns the deleted config and Check still finds it |
| Bootstrap.Hydrated | cmd/rate-limiter/main.go:22-27 | the key space after InitializeRateLimitConfig of each scanned config in order; its promises are HydratedTouchesOnlyIds and HydratedReadsBack |
| Bootstrap.HydratedTouchesOnlyIds | cmd/rate-limiter/main.go:22-27 | hydration leaves every key that is not a scanned id present or absent as before, with the same value |
| Bootstrap.HydratedReadsBack | cmd/rate-limiter/main.go:22-27 | right after hydration, each scanned config reads back from Redis with its own limit and window |
| Bootstrap.LoadConfigFromDBToRedis | cmd/rate-limiter/main.go:14-30 | the scan covers the table; configs are written in scan order up to the first failed write, which returns its error; no error exactly when the scan and every write succeed; Redis then holds the hydration of the written prefix |

## Left out

- HTTP routing, JSON request decoding and response writing are left out. A
  request body is an `Option` whose `None` stands for a body that does not
  decode. A body field of the wrong JSON type is not distinguished.
- Connection setup is left out: `redis.Initialize` and `NewCassandraClient`,
  including its `log.Fatalf` when the cluster cannot be reached.
- Concurrency is left out. Handlers run one at a time, and the INCR/EXPIRE
  pair in `IncrementCurrentRequests` and the read-then-increment in Check are
  not interleaved with other requests.
- Transient failures are a per-call-site input, not a model of timeouts or
  partial replies. A failed call changes nothing. A write that reaches the
  server but whose reply is lost is not modelled.
- `json.Marshal` of the two-integer record cannot fail, so its error branch
  in internal/redis/redis_client.go is not modelled.
- The JSON encoding is abstract: the record and the decimal counter are
  distinct value shapes, not byte strings.
- Cassandra column types are not modelled. `limit` and `reset_after` round
  through the table as int64, including the `time.Duration` bound on INSERT.
  The `current_requests` column is read by the full scan and dropped.
- The `main` function's HTTP server is left out. So is the fact that it
  discards `LoadConfigFromDBToRedis`'s error; the model returns that error.
- The commented-out loader at the end of api/handler.go is not code and is
  not modelled.
- internal/limiter/limiter.go contributes only the `RateLimiter` record.
  internal/limiter/limiter_test.go and pkg/rate_limiter_middle_ware.go are
  not part of this model.
- The clock advances only through `FastStore.Tick`. The handlers read it
  (`cache.now`) for every Redis command but never advance it.
- A key dies at its expiry instant (`now < expiresAt` in `Redis.Live`), on a
  nanosecond clock. Redis keeps serving a key through the millisecond in
  which it expires, so it drops the key up to a millisecond later than the
  model does. `RedisClient.ConfigLivesForItsWindow` ("gone from then on")
  and `RedisClient.FirstIncrementLivesOneSecond` ("exactly one second") are
  exact for the model's clock, and in Redis hold to within that
  millisecond.
- The CQL statements are assumed to parse. The INSERT, the UPDATE and both
  SELECTs in internal/cassandra/cassandra_client.go (lines 30, 41, 53 and
  67) name the column `limit` unquoted. LIMIT is a reserved word in CQL, so
  Cassandra would reject them; only the DELETE would run. The model lets
  each statement succeed whenever it reaches the cluster. A rejected
  statement is one of the failures that the `reached` flag, a handler's
  `down` set and hydration's `scanReached` stand for. Every property holds
  for every value of those inputs, so each holds in that setting too: Create
  always answers 500, every Redis miss answers 404, and hydration always
  fails.
- Expired keys are never purged, because they behave as absent. Redis's
  own memory eviction is not modelled.
- Bootstrap.HydratedReadsBack: requires the scanned ids to be distinct,
  which a scan of the table guarantees (`IsScanOf`).
