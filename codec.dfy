/** The text the rate limiter keeps in Redis. A value is either the JSON
    encoding of a RateLimitData record (written under a client id) or the
    decimal text that INCR reads and writes. JSON marshalling is taken as an
    exact inverse pair on the two-field record. */
module Codec {
  import opened Common

  /** The record stored under a client id (internal/redis/redis_client.go). */
  datatype RateLimitData = RateLimitData(limit: Int64, resetAfter: Int64)

  datatype Value = Json(data: RateLimitData) | Decimal(n: int)

  /** json.Marshal of a RateLimitData. */
  function Marshal(d: RateLimitData): (v: Value)
    ensures Unmarshal(v) == Ok(d)
    ensures Atoi(v).Err?
  {
    Json(d)
  }

  /** json.Unmarshal into a RateLimitData: only JSON object text decodes;
      decimal text is a JSON number, which does not fit a struct. */
  function Unmarshal(v: Value): (r: Result<RateLimitData>)
    ensures r.Ok? <==> v.Json?
    ensures r.Ok? ==> v == Json(r.value)
    ensures r.Err? ==> r.error == BadConfig
  {
    match v
    case Json(d) => Ok(d)
    case Decimal(_) => Err(BadConfig)
  }

  /** strconv.Atoi on a 64-bit platform: decimal text in the int64 range. */
  function Atoi(v: Value): (r: Result<int>)
    ensures r.Ok? <==> v.Decimal? && MIN_INT64 <= v.n <= MAX_INT64
    ensures r.Ok? ==> v == Decimal(r.value)
    ensures r.Err? ==> r.error == BadCount
  {
    match v
    case Decimal(n) => if MIN_INT64 <= n <= MAX_INT64 then Ok(n) else Err(BadCount)
    case Json(_) => Err(BadCount)
  }
}
