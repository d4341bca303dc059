/** The Redis commands the rate limiter issues (GET, SET with its expiry
    options, INCR, EXPIRE, and a MULTI/EXEC block of DELs), over an in-memory
    key space with per-key expiry instants on a nanosecond clock. Expired keys
    behave exactly like absent ones; nothing ever needs to purge them. */
module Redis {
  import opened Common
  import opened Codec

  type Positive = x: int | x > 0 witness 1

  /** A stored string and the instant (in ns) at which it stops existing, if any. */
  datatype Entry = Entry(value: Value, expiresAt: Option<int>)

  type Entries = map<string, Entry>

  /** The expiry argument of SET: none, EX seconds, PX milliseconds, or KEEPTTL. */
  datatype SetOption = NoExpiry | Ex(seconds: Positive) | Px(millis: Positive) | KeepTtl

  /** The outcome of INCR: the key space afterwards and the reply. */
  datatype Counted = Counted(after: Entries, result: Result<int>)

  /** A key exists at instant now while it is present and its expiry instant
      has not been reached. */
  predicate Live(db: Entries, now: int, key: string) {
    key in db && (db[key].expiresAt.None? || now < db[key].expiresAt.value)
  }

  /** GET: the value of a live key; nothing for an absent or expired one. */
  function Get(db: Entries, now: int, key: string): (r: Option<Value>)
    ensures r.Some? <==> Live(db, now, key)
    ensures r.Some? ==> r.value == db[key].value
  {
    if Live(db, now, key) then Some(db[key].value) else None
  }

  /** The expiry instant SET gives its key. */
  function ExpiryAfterSet(db: Entries, now: int, key: string, opt: SetOption): (r: Option<int>)
    ensures r.Some? ==> now < r.value
  {
    match opt
    case NoExpiry => None
    case Ex(s) => Some(now + s * SECOND)
    case Px(ms) => Some(now + ms * MILLISECOND)
    case KeepTtl => if Live(db, now, key) then db[key].expiresAt else None
  }

  /** SET key value [EX s | PX ms | KEEPTTL]: overwrites any previous value and,
      except with KEEPTTL, any previous expiry. */
  function SetCmd(db: Entries, now: int, key: string, v: Value, opt: SetOption): (r: Entries)
    ensures Get(r, now, key) == Some(v)
    ensures r - {key} == db - {key}
    ensures opt.NoExpiry? ==> r[key].expiresAt == None
    ensures opt.Ex? ==> r[key].expiresAt == Some(now + opt.seconds * SECOND)
    ensures opt.Px? ==> r[key].expiresAt == Some(now + opt.millis * MILLISECOND)
  {
    db[key := Entry(v, ExpiryAfterSet(db, now, key, opt))]
  }

  /** INCR key: an absent key counts as 0 and is created without expiry; a
      live 64-bit decimal is incremented in place, keeping its expiry; any
      other value, or an increment past the int64 range, is an error that
      leaves the key space as it was. */
  function IncrCmd(db: Entries, now: int, key: string): (r: Counted)
    ensures r.after - {key} == db - {key}
    ensures r.result.Err? ==> r.after == db
    ensures r.result.Ok? ==> Get(r.after, now, key) == Some(Decimal(r.result.value))
    ensures !Live(db, now, key) ==> r.result == Ok(1) && r.after[key] == Entry(Decimal(1), None)
    ensures Live(db, now, key) ==>
      match db[key].value
      case Decimal(n) =>
        if MIN_INT64 <= n < MAX_INT64 then
          r.result == Ok(n + 1) && r.after[key] == Entry(Decimal(n + 1), db[key].expiresAt)
        else if n == MAX_INT64 then r.result == Err(Overflow)
        else r.result == Err(NotInteger)
      case Json(_) => r.result == Err(NotInteger)
  {
    match Get(db, now, key)
    case None => Counted(db[key := Entry(Decimal(1), None)], Ok(1))
    case Some(Decimal(n)) =>
      if MIN_INT64 <= n < MAX_INT64 then
        Counted(db[key := db[key].(value := Decimal(n + 1))], Ok(n + 1))
      else if n == MAX_INT64 then Counted(db, Err(Overflow))
      else Counted(db, Err(NotInteger))
    case Some(Json(_)) => Counted(db, Err(NotInteger))
  }

  /** EXPIRE key seconds: on a live key, a positive timeout sets the expiry
      instant and a non-positive one deletes the key; an absent or expired key
      is left alone. */
  function ExpireCmd(db: Entries, now: int, key: string, seconds: int): (r: Entries)
    ensures r - {key} == db - {key}
    ensures !Live(db, now, key) ==> r == db
    ensures Live(db, now, key) && seconds <= 0 ==> key !in r
    ensures Live(db, now, key) && seconds > 0 ==>
      key in r && r[key] == Entry(db[key].value, Some(now + seconds * SECOND))
  {
    if !Live(db, now, key) then db
    else if seconds <= 0 then db - {key}
    else db[key := db[key].(expiresAt := Some(now + seconds * SECOND))]
  }

  /** The Redis server: its key space and its clock. Every command takes
      whether the round trip reached the server; one that did not changes
      nothing and reports Unreachable. */
  class FastStore {
    var entries: Entries
    var now: int

    constructor ()
      ensures entries == map[] && now == 0
    {
      entries := map[];
      now := 0;
    }

    /** Lets d nanoseconds pass. */
    method Tick(d: nat)
      modifies this`now
      ensures now == old(now) + d
    {
      now := now + d;
    }

    method Set(key: string, v: Value, opt: SetOption, reached: bool) returns (err: Option<StoreError>)
      modifies this`entries
      ensures err == if reached then None else Some(Unreachable)
      ensures entries == if reached then SetCmd(old(entries), now, key, v, opt) else old(entries)
    {
      if !reached {
        return Some(Unreachable);
      }
      entries := SetCmd(entries, now, key, v, opt);
      return None;
    }

    method Incr(key: string, reached: bool) returns (r: Result<int>)
      modifies this`entries
      ensures !reached ==> r == Err(Unreachable) && entries == old(entries)
      ensures reached ==> Counted(entries, r) == IncrCmd(old(entries), now, key)
    {
      if !reached {
        return Err(Unreachable);
      }
      var c := IncrCmd(entries, now, key);
      entries := c.after;
      return c.result;
    }

    method Expire(key: string, seconds: int, reached: bool) returns (err: Option<StoreError>)
      modifies this`entries
      ensures err == if reached then None else Some(Unreachable)
      ensures entries == if reached then ExpireCmd(old(entries), now, key, seconds) else old(entries)
    {
      if !reached {
        return Some(Unreachable);
      }
      entries := ExpireCmd(entries, now, key, seconds);
      return None;
    }

    /** MULTI, one DEL per key, EXEC: all the deletions happen or none does. */
    method Exec(dels: seq<string>, reached: bool) returns (err: Option<StoreError>)
      modifies this`entries
      ensures err == if reached then None else Some(Unreachable)
      ensures entries == if reached then old(entries) - (set k | k in dels) else old(entries)
    {
      if !reached {
        return Some(Unreachable);
      }
      entries := entries - (set k | k in dels);
      return None;
    }
  }
}
