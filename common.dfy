/** Go's fixed-width integers and time.Duration units, and the replies and
    errors the rate limiter's two store clients hand back to the handlers. */
module Common {

  const MIN_INT64: int := -0x8000_0000_0000_0000
  const MAX_INT64: int := 0x7FFF_FFFF_FFFF_FFFF
  const TWO_TO_64: int := 0x1_0000_0000_0000_0000

  /** Go's int64, and Go's int, which is 64 bits wide on the targets the service runs on. */
  type Int64 = x: int | MIN_INT64 <= x <= MAX_INT64

  /** A time.Duration counts nanoseconds. */
  const MILLISECOND: int := 1_000_000
  const SECOND: int := 1_000_000_000

  datatype Option<+T> = None | Some(value: T)

  /** Why a store call failed. */
  datatype StoreError =
    | Unreachable      // the round trip did not reach the server
    | Nil              // redis.Nil: GET of an absent or expired key
    | NotInteger       // INCR on a value that is not a 64-bit decimal integer
    | Overflow         // INCR past the largest int64
    | BadConfig        // the stored text does not unmarshal as a config record
    | BadCount         // the stored text does not parse with strconv.Atoi
    | NoRow            // gocql.ErrNotFound: SELECT found no row

  datatype Result<+T> = Ok(value: T) | Err(error: StoreError)

  /** Go's (limit int, resetAfter int64, err error) triple, as both
      GetRateLimitConfig functions return it. */
  datatype ConfigReply = ConfigReply(limit: Int64, resetAfter: Int64, err: Option<StoreError>)
  {
    predicate Failed() { err.Some? }
  }

  /** The reply of a failed lookup: zero values beside the error. */
  function Failure(e: StoreError): (r: ConfigReply)
    ensures r.Failed() && r.limit == 0 && r.resetAfter == 0
  {
    ConfigReply(0, 0, Some(e))
  }

  /** Two's-complement wrap-around of a mathematical integer into int64, as
      Go's int64 multiplication behaves on overflow. */
  function Wrap64(x: int): (r: Int64)
    ensures MIN_INT64 <= x <= MAX_INT64 ==> r == x
    ensures (x - r) % TWO_TO_64 == 0
  {
    var m := x % TWO_TO_64;
    if m <= MAX_INT64 then m else m - TWO_TO_64
  }

  /** Go's integer division, which truncates toward zero. */
  function Quo(a: int, b: int): (q: int)
    requires b > 0
    ensures 0 <= a ==> q * b <= a < q * b + b
    ensures a < 0 ==> q * b - b < a <= q * b
  {
    if 0 <= a then a / b else -((-a) / b)
  }
}
