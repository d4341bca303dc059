/** The rate limiter's Cassandra client (internal/cassandra/cassandra_client.go)
    over the rate_limits table, kept in memory as a map from id to row. Writes
    and the full scan are methods on the DurableStore; the single-row SELECT
    is a function of a snapshot of the table. Every statement takes whether it
    reached the cluster. */
module Cassandra {
  import opened Common

  /** The columns of a rate_limits row that the client writes and reads. */
  datatype Row = Row(limit: Int64, resetAfter: Int64)

  type Rows = map<string, Row>

  /** internal/limiter/limiter.go's RateLimiter, the record a full scan returns;
      resetAfter is the time.Duration the reset_after column is scanned into. */
  datatype RateLimiter = RateLimiter(id: string, limit: Int64, resetAfter: Int64)

  /** The result of INSERT or UPDATE on a cluster it reached: both are upserts
      in CQL and replace limit and reset_after of the row keyed by id. */
  function Upsert(rows: Rows, id: string, limit: Int64, resetAfter: Int64): (r: Rows)
    ensures LoadRateLimitConfig(r, id, true) == ConfigReply(limit, resetAfter, None)
    ensures r - {id} == rows - {id}
    ensures r.Keys == rows.Keys + {id}
  {
    rows[id := Row(limit, resetAfter)]
  }

  /** SELECT limit, reset_after FROM rate_limits WHERE id = ?: a missing row is
      gocql.ErrNotFound, with zero values beside it. */
  function LoadRateLimitConfig(rows: Rows, id: string, reached: bool): (r: ConfigReply)
    ensures !r.Failed() <==> reached && id in rows
    ensures !r.Failed() ==> rows[id] == Row(r.limit, r.resetAfter)
    ensures reached && id !in rows ==> r == Failure(NoRow)
    ensures r.Failed() ==> r.limit == 0 && r.resetAfter == 0
  {
    if !reached then Failure(Unreachable)
    else if id !in rows then Failure(NoRow)
    else ConfigReply(rows[id].limit, rows[id].resetAfter, None)
  }

  /** The ids a sequence of records names. */
  function Ids(cs: seq<RateLimiter>): (ids: set<string>) {
    set i | 0 <= i < |cs| :: cs[i].id
  }

  /** No two records name the same id. */
  predicate DistinctIds(cs: seq<RateLimiter>) {
    forall i, j :: 0 <= i < j < |cs| ==> cs[i].id != cs[j].id
  }

  /** cs lists every row of the table exactly once, each with its own values. */
  predicate IsScanOf(cs: seq<RateLimiter>, rows: Rows) {
    && (forall i :: 0 <= i < |cs| ==> cs[i].id in rows && rows[cs[i].id] == Row(cs[i].limit, cs[i].resetAfter))
    && DistinctIds(cs)
    && (forall id :: id in rows ==> exists i :: 0 <= i < |cs| && cs[i].id == id)
  }

  /** The rate_limits table. */
  class DurableStore {
    var rows: Rows

    constructor ()
      ensures rows == map[]
    {
      rows := map[];
    }

    /** INSERT INTO rate_limits (id, limit, reset_after) VALUES (?, ?, ?). */
    method SaveRateLimitConfig(id: string, limit: Int64, resetAfter: Int64, reached: bool)
      returns (err: Option<StoreError>)
      modifies this
      ensures err.None? <==> reached
      ensures rows == if reached then Upsert(old(rows), id, limit, resetAfter) else old(rows)
    {
      if !reached {
        return Some(Unreachable);
      }
      rows := rows[id := Row(limit, resetAfter)];
      return None;
    }

    /** UPDATE rate_limits SET limit = ?, reset_after = ? WHERE id = ?. */
    method UpdateRateLimitConfig(id: string, newLimit: Int64, newResetAfter: Int64, reached: bool)
      returns (err: Option<StoreError>)
      modifies this
      ensures err.None? <==> reached
      ensures rows == if reached then Upsert(old(rows), id, newLimit, newResetAfter) else old(rows)
    {
      if !reached {
        return Some(Unreachable);
      }
      rows := rows[id := Row(newLimit, newResetAfter)];
      return None;
    }

    /** DELETE FROM rate_limits WHERE id = ?; deleting a missing row succeeds. */
    method DeleteRateLimitConfig(id: string, reached: bool) returns (err: Option<StoreError>)
      modifies this
      ensures err.None? <==> reached
      ensures rows == if reached then old(rows) - {id} else old(rows)
    {
      if !reached {
        return Some(Unreachable);
      }
      rows := rows - {id};
      return None;
    }

    /** SELECT id, limit, current_requests, reset_after FROM rate_limits: one
        record per row, in the order the cluster returns them (any order);
        current_requests is read and dropped. An error reported when the
        iterator is closed discards everything scanned. */
    method GetAllRateLimitConfigs(reached: bool) returns (r: Result<seq<RateLimiter>>)
      ensures !reached ==> r == Err(Unreachable)
      ensures reached ==> r.Ok? && IsScanOf(r.value, rows)
    {
      var configs: seq<RateLimiter> := [];
      var pending := rows.Keys;
      while pending != {}
        invariant pending <= rows.Keys
        invariant forall i :: 0 <= i < |configs| ==>
          configs[i].id in rows && configs[i].id !in pending && rows[configs[i].id] == Row(configs[i].limit, configs[i].resetAfter)
        invariant DistinctIds(configs)
        invariant forall id :: id in rows && id !in pending ==> exists i :: 0 <= i < |configs| && configs[i].id == id
        decreases pending
      {
        var id :| id in pending;
        ghost var scanned := configs;
        configs := configs + [RateLimiter(id, rows[id].limit, rows[id].resetAfter)];
        forall k | k in rows && k !in pending - {id}
          ensures exists i :: 0 <= i < |configs| && configs[i].id == k
        {
          if k == id {
            assert configs[|scanned|].id == k;
          } else {
            var i :| 0 <= i < |scanned| && scanned[i].id == k;
            assert configs[i].id == k;
          }
        }
        pending := pending - {id};
      }
      if !reached {
        return Err(Unreachable);
      }
      return Ok(configs);
    }
  }

  // ---------------------------------------------------------------------
  // Properties of the client

  /** A full scan has exactly as many records as the table has rows. */
  lemma {:induction false} ScanCoversTable(cs: seq<RateLimiter>, rows: Rows)
    requires IsScanOf(cs, rows)
    ensures |cs| == |rows|
    ensures forall id :: id in rows <==> exists i :: 0 <= i < |cs| && cs[i].id == id
  {
    assert Ids(cs) == rows.Keys;
    SeqOfDistinctIds(cs);
  }

  lemma {:induction false} SeqOfDistinctIds(cs: seq<RateLimiter>)
    requires DistinctIds(cs)
    ensures |Ids(cs)| == |cs|
  {
    if cs != [] {
      var rest := cs[..|cs| - 1];
      SeqOfDistinctIds(rest);
      var last := cs[|cs| - 1].id;
      assert Ids(cs) == Ids(rest) + {last};
      assert last !in Ids(rest);
    }
  }

  /** After DELETE succeeds, SELECT of that id finds no row. */
  lemma LoadAfterDeleteFails(rows: Rows, id: string)
    ensures LoadRateLimitConfig(rows - {id}, id, true) == Failure(NoRow)
  {
  }
}
