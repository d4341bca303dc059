/** The rate limiter's Redis client (internal/redis/redis_client.go): the key
    layout it uses, the go-redis translation of time.Duration arguments into
    command options, and the six operations the handlers call. Writes are
    methods on the FastStore; the two reads are functions of a snapshot of
    its key space and clock. */
module RedisClient {
  import opened Common
  import opened Codec
  import opened Redis

  // Key layout, literally as the client writes it. The config record and the
  // INCR counter both live under the bare id.

  function CounterKey(id: string): (key: string) { id + ":current_requests" }

  function LimitKey(id: string): (key: string) { id + ":limit" }

  function ResetAfterKey(id: string): (key: string) { id + ":reset_after" }

  /** For one id, the four keys are pairwise distinct, and each suffixed key
      names its id: two ids never share a counter, limit or reset_after key. */
  lemma KeyLayout(id: string, other: string)
    ensures id != CounterKey(id) && id != LimitKey(id) && id != ResetAfterKey(id)
    ensures CounterKey(id) != LimitKey(id) && CounterKey(id) != ResetAfterKey(id) && LimitKey(id) != ResetAfterKey(id)
    ensures CounterKey(id) == CounterKey(other) ==> id == other
    ensures LimitKey(id) == LimitKey(other) ==> id == other
    ensures ResetAfterKey(id) == ResetAfterKey(other) ==> id == other
  {
    assert |CounterKey(id)| == |id| + 17;
    assert |LimitKey(id)| == |id| + 6;
    assert |ResetAfterKey(id)| == |id| + 12;
    if CounterKey(id) == CounterKey(other) {
      assert |id| == |other|;
      assert id == CounterKey(id)[..|id|] == CounterKey(other)[..|other|] == other;
    }
    if LimitKey(id) == LimitKey(other) {
      assert |id| == |other|;
      assert id == LimitKey(id)[..|id|] == LimitKey(other)[..|other|] == other;
    }
    if ResetAfterKey(id) == ResetAfterKey(other) {
      assert |id| == |other|;
      assert id == ResetAfterKey(id)[..|id|] == ResetAfterKey(other)[..|other|] == other;
    }
  }

  /** How go-redis v8 passes Set's time.Duration argument: a positive duration
      of whole seconds as EX, any other positive duration as PX in whole
      milliseconds (at least 1), the sentinel -1 as KEEPTTL, and otherwise no
      expiry at all. */
  function SetExpiryOption(d: Int64): (opt: SetOption)
    ensures opt.NoExpiry? <==> d <= 0 && d != -1
    ensures opt.KeepTtl? <==> d == -1
    ensures opt.Ex? ==> opt.seconds * SECOND == d
    ensures opt.Px? ==> 0 < d && d % SECOND != 0 && d - MILLISECOND < opt.millis * MILLISECOND <= d + MILLISECOND
  {
    if d > 0 then
      if d < SECOND || d % SECOND != 0 then Px(if d < MILLISECOND then 1 else d / MILLISECOND)
      else Ex(d / SECOND)
    else if d == -1 then KeepTtl
    else NoExpiry
  }

  /** How go-redis v8 passes Expire's time.Duration argument: as whole seconds,
      truncated toward zero, except that a positive duration under one second
      becomes one second. */
  function ExpireSeconds(d: Int64): (s: int)
    ensures 0 < d < SECOND ==> s == 1
    ensures SECOND <= d ==> 0 < s && s * SECOND <= d < s * SECOND + SECOND
    ensures d <= 0 ==> s <= 0
  {
    if 0 < d < SECOND then 1 else Quo(d, SECOND)
  }

  /** time.Duration(resetAfter) * time.Second: the config TTL, in nanoseconds,
      wrapping around at 64 bits. */
  function ConfigTtl(resetAfter: Int64): (d: Int64)
    ensures MIN_INT64 <= resetAfter * SECOND <= MAX_INT64 ==> d == resetAfter * SECOND
  {
    Wrap64(resetAfter * SECOND)
  }

  /** The key space after InitializeRateLimitConfig or UpdateRateLimitConfig
      reaches the server: SET id <json> with the config TTL. */
  function StoreConfig(db: Entries, now: int, id: string, limit: Int64, resetAfter: Int64): (r: Entries)
    ensures r - {id} == db - {id}
    ensures GetRateLimitConfig(r, now, id, true) == ConfigReply(limit, resetAfter, None)
  {
    SetCmd(db, now, id, Marshal(RateLimitData(limit, resetAfter)), SetExpiryOption(ConfigTtl(resetAfter)))
  }

  method InitializeRateLimitConfig(store: FastStore, id: string, limit: Int64, resetAfter: Int64, reached: bool)
    returns (err: Option<StoreError>)
    modifies store
    ensures store.now == old(store.now)
    ensures err == if reached then None else Some(Unreachable)
    ensures store.entries == if reached then StoreConfig(old(store.entries), store.now, id, limit, resetAfter)
                             else old(store.entries)
  {
    var data := Marshal(RateLimitData(limit, resetAfter));
    err := store.Set(id, data, SetExpiryOption(ConfigTtl(resetAfter)), reached);
  }

  method UpdateRateLimitConfig(store: FastStore, id: string, newLimit: Int64, newResetAfter: Int64, reached: bool)
    returns (err: Option<StoreError>)
    modifies store
    ensures store.now == old(store.now)
    ensures err == if reached then None else Some(Unreachable)
    ensures store.entries == if reached then StoreConfig(old(store.entries), store.now, id, newLimit, newResetAfter)
                             else old(store.entries)
  {
    var data := Marshal(RateLimitData(newLimit, newResetAfter));
    err := store.Set(id, data, SetExpiryOption(ConfigTtl(newResetAfter)), reached);
    if err.Some? {
      return err;
    }
    return None;
  }

  /** What IncrementCurrentRequests does: INCR id, and when that yields 1,
      EXPIRE id with the given time.Duration. */
  function IncrementEffect(db: Entries, now: int, id: string, resetAfter: Int64, incrReached: bool, expireReached: bool)
    : (r: Counted)
    ensures r.after - {id} == db - {id}
    ensures !incrReached ==> r == Counted(db, Err(Unreachable))
    ensures incrReached && expireReached && !Live(db, now, id) ==>
      && r.result == Ok(1)
      && (ExpireSeconds(resetAfter) <= 0 ==> id !in r.after)
      && (ExpireSeconds(resetAfter) > 0 ==>
            id in r.after && r.after[id] == Entry(Decimal(1), Some(now + ExpireSeconds(resetAfter) * SECOND)))
    ensures incrReached && !expireReached && !Live(db, now, id) ==>
      r == Counted(db[id := Entry(Decimal(1), None)], Err(Unreachable))
    ensures incrReached && Live(db, now, id) && db[id].value.Decimal? && 0 < db[id].value.n < MAX_INT64 ==>
      r.result == Ok(db[id].value.n + 1) && id in r.after && r.after[id] == Entry(Decimal(db[id].value.n + 1), db[id].expiresAt)
    ensures Live(db, now, id) && db[id].value.Json? ==> r == Counted(db, if incrReached then Err(NotInteger) else Err(Unreachable))
  {
    if !incrReached then Counted(db, Err(Unreachable))
    else
      var c := IncrCmd(db, now, id);
      if c.result.Err? then c
      else if c.result.value == 1 then
        if !expireReached then Counted(c.after, Err(Unreachable))
        else Counted(ExpireCmd(c.after, now, id, ExpireSeconds(resetAfter)), c.result)
      else c
  }

  method IncrementCurrentRequests(store: FastStore, id: string, resetAfter: Int64, incrReached: bool, expireReached: bool)
    returns (r: Result<int>)
    modifies store
    ensures store.now == old(store.now)
    ensures Counted(store.entries, r) == IncrementEffect(old(store.entries), store.now, id, resetAfter, incrReached, expireReached)
  {
    var current := store.Incr(id, incrReached);
    if current.Err? {
      return current;
    }
    if current.value == 1 {
      var err := store.Expire(id, ExpireSeconds(resetAfter), expireReached);
      if err.Some? {
        return Err(err.value);
      }
    }
    return current;
  }

  /** GET id, then unmarshal the JSON record. */
  function GetRateLimitConfig(db: Entries, now: int, id: string, reached: bool): (r: ConfigReply)
    ensures !r.Failed() <==> reached && Get(db, now, id).Some? && Get(db, now, id).value.Json?
    ensures !r.Failed() ==> Get(db, now, id) == Some(Json(RateLimitData(r.limit, r.resetAfter)))
    ensures r.Failed() ==> r.limit == 0 && r.resetAfter == 0
    ensures reached && !Live(db, now, id) ==> r == Failure(Nil)
  {
    if !reached then Failure(Unreachable)
    else match Get(db, now, id)
      case None => Failure(Nil)
      case Some(v) =>
        match Unmarshal(v)
        case Ok(d) => ConfigReply(d.limit, d.resetAfter, None)
        case Err(_) => Failure(BadConfig)
  }

  /** GET id:current_requests, then strconv.Atoi; an absent key reads as 0. */
  function GetCurrentRequests(db: Entries, now: int, id: string, reached: bool): (r: Result<int>)
    ensures !reached ==> r == Err(Unreachable)
    ensures reached && !Live(db, now, CounterKey(id)) ==> r == Ok(0)
    ensures reached && Live(db, now, CounterKey(id)) ==> r == Atoi(db[CounterKey(id)].value)
    ensures r.Ok? ==> MIN_INT64 <= r.value <= MAX_INT64
  {
    if !reached then Err(Unreachable)
    else match Get(db, now, CounterKey(id))
      case None => Ok(0)
      case Some(v) => Atoi(v)
  }

  /** What DeleteRateLimitConfig's transaction does when it reaches the server. */
  function DeleteEffect(db: Entries, id: string): (r: Entries)
    ensures forall k :: k in r <==> k in db && k != LimitKey(id) && k != ResetAfterKey(id) && k != CounterKey(id)
    ensures forall k :: k in r ==> r[k] == db[k]
  {
    db - {LimitKey(id), ResetAfterKey(id), CounterKey(id)}
  }

  method DeleteRateLimitConfig(store: FastStore, id: string, reached: bool) returns (err: Option<StoreError>)
    modifies store
    ensures store.now == old(store.now)
    ensures err.None? <==> reached
    ensures store.entries == if reached then DeleteEffect(old(store.entries), id) else old(store.entries)
  {
    err := store.Exec([LimitKey(id), ResetAfterKey(id), CounterKey(id)], reached);
    if err.Some? {
      return err;
    }
    return None;
  }

  // ---------------------------------------------------------------------
  // Properties of the client

  /** A config written with a window of resetAfter seconds reads back exactly
      until resetAfter seconds (in ns: resetAfter * 10^9) have passed, and is
      gone from then on. */
  lemma ConfigLivesForItsWindow(db: Entries, now: int, id: string, limit: Int64, resetAfter: Int64, t: int)
    requires 0 < resetAfter <= MAX_INT64 / SECOND
    requires now <= t
    ensures GetRateLimitConfig(StoreConfig(db, now, id, limit, resetAfter), t, id, true)
         == if t < now + resetAfter * SECOND then ConfigReply(limit, resetAfter, None) else Failure(Nil)
  {
    assert ConfigTtl(resetAfter) == resetAfter * SECOND;
    assert SetExpiryOption(ConfigTtl(resetAfter)) == Ex(resetAfter);
  }

  /** A config written with a non-positive window never expires. */
  lemma ConfigWithoutWindowNeverExpires(db: Entries, now: int, id: string, limit: Int64, resetAfter: Int64, t: int)
    requires MIN_INT64 / SECOND < resetAfter <= 0
    ensures GetRateLimitConfig(StoreConfig(db, now, id, limit, resetAfter), t, id, true) == ConfigReply(limit, resetAfter, None)
  {
    assert ConfigTtl(resetAfter) == resetAfter * SECOND;
    assert SetExpiryOption(ConfigTtl(resetAfter)) == NoExpiry;
  }

  /** The config TTL is a multiple of 2^9 ns even after wrap-around, so it is
      never go-redis's KEEPTTL sentinel -1: every config write replaces the
      previous expiry. */
  lemma {:induction false} ConfigTtlNeverKeepsTtl(resetAfter: Int64)
    ensures !SetExpiryOption(ConfigTtl(resetAfter)).KeepTtl?
  {
    var x := resetAfter * SECOND;
    var q := x / TWO_TO_64;
    var m := x % TWO_TO_64;
    assert x == q * TWO_TO_64 + m;
  }

  /** Increments go to key id while the count is read from
      id:current_requests, so an increment never changes the count that the
      next check reads. */
  lemma IncrementNeverMovesCount(db: Entries, now: int, id: string, resetAfter: Int64, incrReached: bool, expireReached: bool, reached: bool)
    ensures GetCurrentRequests(IncrementEffect(db, now, id, resetAfter, incrReached, expireReached).after, now, id, reached)
         == GetCurrentRequests(db, now, id, reached)
  {
    var after := IncrementEffect(db, now, id, resetAfter, incrReached, expireReached).after;
    assert |CounterKey(id)| == |id| + 17;
    assert CounterKey(id) in after <==> CounterKey(id) in after - {id};
    assert CounterKey(id) in db <==> CounterKey(id) in db - {id};
    if CounterKey(id) in db {
      assert after[CounterKey(id)] == (after - {id})[CounterKey(id)];
    }
  }

  /** The counter expiry is passed as time.Duration(resetAfter), i.e. resetAfter
      nanoseconds, not seconds: for every window under 10^9 seconds the first
      increment gives the counter a one-second lifetime, whatever the window. */
  lemma FirstIncrementLivesOneSecond(db: Entries, now: int, id: string, resetAfter: Int64)
    requires 0 < resetAfter < SECOND
    requires !Live(db, now, id)
    ensures IncrementEffect(db, now, id, resetAfter, true, true)
         == Counted(db[id := Entry(Decimal(1), Some(now + SECOND))], Ok(1))
  {
  }

  /** With a non-positive window, the first increment deletes the counter it
      has just created. */
  lemma FirstIncrementVanishesWithoutWindow(db: Entries, now: int, id: string, resetAfter: Int64)
    requires resetAfter <= 0
    requires !Live(db, now, id)
    ensures IncrementEffect(db, now, id, resetAfter, true, true) == Counted(db - {id}, Ok(1))
  {
    assert IncrCmd(db, now, id).after - {id} == db - {id};
  }

  /** Deleting a config removes id:limit, id:reset_after and
      id:current_requests, which requests for id never write, and leaves the
      config record under id readable. */
  lemma DeleteKeepsConfigRecord(db: Entries, t: int, id: string, reached: bool)
    ensures GetRateLimitConfig(DeleteEffect(db, id), t, id, reached) == GetRateLimitConfig(db, t, id, reached)
    ensures reached ==> GetCurrentRequests(DeleteEffect(db, id), t, id, reached) == Ok(0)
  {
    assert |LimitKey(id)| == |id| + 6;
    assert |ResetAfterKey(id)| == |id| + 12;
    assert |CounterKey(id)| == |id| + 17;
  }
}
