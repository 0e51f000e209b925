/**
 * The tile store of src/database.rs: a `tiles` table keyed by `(x, y, z)`
 * holding the earliest time each tile was visited, and a `processed_files`
 * table of the GPX file names already ingested, with the time of ingestion.
 * Every write is an upsert that keeps the minimum time; a batch runs in one
 * transaction and changes nothing unless all of it commits.
 */
module TileStore {
  import opened Wrappers
  import opened Numbers

  /** The primary key of the `tiles` table. */
  datatype TileKey = TileKey(x: nat, y: nat, z: nat)

  /** A row of the `tiles` table as `get_all_tiles` returns it. */
  datatype TileRecord = TileRecord(x: nat, y: nat, z: nat, firstVisitedAt: int)

  /** What a call into SQLite returns: its value, or an error. */
  datatype DbResult<+T> = Ok(value: T) | DbError

  function KeyOf(r: TileRecord): TileKey {
    TileKey(r.x, r.y, r.z)
  }

  /**
   * `INSERT ... ON CONFLICT(x, y, z) DO UPDATE SET first_visited_at =
   * MIN(first_visited_at, excluded.first_visited_at)`: the new time for a
   * new key, the smaller of the two for a stored one.
   */
  function Upsert(m: map<TileKey, int>, k: TileKey, t: int): map<TileKey, int> {
    m[k := if k in m then Min(m[k], t) else t]
  }

  /** The rows of a batch upserted one after the other. */
  function ApplyBatch(m: map<TileKey, int>, batch: seq<(TileKey, int)>): map<TileKey, int>
    decreases |batch|
  {
    if batch == [] then m else ApplyBatch(Upsert(m, batch[0].0, batch[0].1), batch[1..])
  }

  /** `t` is offered for `k`: stored already, or in the batch. */
  predicate Offered(m: map<TileKey, int>, batch: seq<(TileKey, int)>, k: TileKey, t: int) {
    (k in m && m[k] == t) || (k, t) in batch
  }

  /** `k` is stored already or has a row in the batch. */
  ghost predicate Mentioned(m: map<TileKey, int>, batch: seq<(TileKey, int)>, k: TileKey) {
    k in m || exists t :: (k, t) in batch
  }

  /** `t` is the earliest time offered for `k`. */
  ghost predicate Earliest(m: map<TileKey, int>, batch: seq<(TileKey, int)>, k: TileKey, t: int) {
    Offered(m, batch, k, t) && forall u :: Offered(m, batch, k, u) ==> t <= u
  }

  /** One upsert: the key gets the earlier time, no other key changes. */
  lemma UpsertKeepsMinimum(m: map<TileKey, int>, k: TileKey, t: int)
    ensures var r := Upsert(m, k, t);
      && r.Keys == m.Keys + {k}
      && (k !in m ==> r[k] == t)
      && (k in m ==> r[k] <= m[k] && r[k] <= t && (r[k] == m[k] || r[k] == t))
      && forall j :: j in m && j != k ==> r[j] == m[j]
  {
  }

  /** Applying `a` and then `b` is applying the rows of `a + b`. */
  lemma {:induction false} ApplyBatchAppend(m: map<TileKey, int>, a: seq<(TileKey, int)>, b: seq<(TileKey, int)>)
    decreases |a|
    ensures ApplyBatch(m, a + b) == ApplyBatch(ApplyBatch(m, a), b)
  {
    if a != [] {
      assert (a + b)[0] == a[0];
      assert (a + b)[1..] == a[1..] + b;
      ApplyBatchAppend(Upsert(m, a[0].0, a[0].1), a[1..], b);
    } else {
      assert [] + b == b;
    }
  }

  /**
   * After a batch the stored keys are the old ones and those of the batch,
   * and each holds the earliest time offered for it.
   */
  lemma {:induction false} ApplyBatchEarliest(m: map<TileKey, int>, batch: seq<(TileKey, int)>, k: TileKey)
    decreases |batch|
    ensures k in ApplyBatch(m, batch) <==> Mentioned(m, batch, k)
    ensures k in ApplyBatch(m, batch) ==> Earliest(m, batch, k, ApplyBatch(m, batch)[k])
  {
    if batch == [] {
    } else {
      var m' := Upsert(m, batch[0].0, batch[0].1);
      var rest := batch[1..];
      assert batch == [batch[0]] + rest;
      ApplyBatchEarliest(m', rest, k);
      var r := ApplyBatch(m, batch);
      assert r == ApplyBatch(m', rest);
      forall t | Offered(m', rest, k, t)
        ensures Offered(m, batch, k, t)
      {
        if k in m' && m'[k] == t && (k, t) !in rest {
          UpsertKeepsMinimum(m, batch[0].0, batch[0].1);
        }
      }
      forall t | Offered(m, batch, k, t)
        ensures exists u :: Offered(m', rest, k, u) && u <= t
      {
        if (k, t) in rest {
          assert Offered(m', rest, k, t);
        } else {
          UpsertKeepsMinimum(m, batch[0].0, batch[0].1);
          assert Offered(m', rest, k, m'[k]);
        }
      }
      if Mentioned(m, batch, k) {
        if k in m {
          assert Offered(m, batch, k, m[k]);
        } else {
          var t :| (k, t) in batch;
          assert Offered(m, batch, k, t);
        }
        var t0 :| Offered(m, batch, k, t0);
        var u :| Offered(m', rest, k, u) && u <= t0;
        assert k in m' || (k, u) in rest;
      }
      if Mentioned(m', rest, k) {
        if k in m' {
          UpsertKeepsMinimum(m, batch[0].0, batch[0].1);
          assert k in m || (k, batch[0].1) in batch;
        } else {
          var t :| (k, t) in rest;
          assert (k, t) in batch;
        }
      }
    }
  }

  /** At most one time is the earliest. */
  lemma EarliestUnique(m: map<TileKey, int>, batch: seq<(TileKey, int)>, m2: map<TileKey, int>,
                       batch2: seq<(TileKey, int)>, k: TileKey, t: int, t2: int)
    requires forall u :: Offered(m, batch, k, u) <==> Offered(m2, batch2, k, u)
    requires Earliest(m, batch, k, t) && Earliest(m2, batch2, k, t2)
    ensures t == t2
  {
  }

  /** Two batches with the same offers leave the same table. */
  lemma SameOffersSameTable(m: map<TileKey, int>, a: seq<(TileKey, int)>, b: seq<(TileKey, int)>)
    requires forall k, t :: Offered(m, a, k, t) <==> Offered(m, b, k, t)
    ensures ApplyBatch(m, a) == ApplyBatch(m, b)
  {
    var ra, rb := ApplyBatch(m, a), ApplyBatch(m, b);
    forall k
      ensures k in ra <==> k in rb
      ensures k in ra ==> ra[k] == rb[k]
    {
      ApplyBatchEarliest(m, a, k);
      ApplyBatchEarliest(m, b, k);
      if k in m {
        assert Offered(m, a, k, m[k]) && Offered(m, b, k, m[k]);
      }
      if Mentioned(m, a, k) && k !in m {
        var t :| (k, t) in a;
        assert Offered(m, b, k, t);
      }
      if Mentioned(m, b, k) && k !in m {
        var t :| (k, t) in b;
        assert Offered(m, a, k, t);
      }
      if k in ra {
        EarliestUnique(m, a, m, b, k, ra[k], rb[k]);
      }
    }
  }

  /** Re-applying a batch changes nothing: ingesting the same tiles twice is harmless. */
  lemma ApplyBatchIdempotent(m: map<TileKey, int>, batch: seq<(TileKey, int)>)
    ensures ApplyBatch(ApplyBatch(m, batch), batch) == ApplyBatch(m, batch)
  {
    ApplyBatchAppend(m, batch, batch);
    forall k, t
      ensures Offered(m, batch + batch, k, t) <==> Offered(m, batch, k, t)
    {
      assert (k, t) in batch + batch <==> (k, t) in batch;
    }
    SameOffersSameTable(m, batch + batch, batch);
  }

  /** The order of two batches does not matter: each key ends with the earliest time of both. */
  lemma ApplyBatchCommutes(m: map<TileKey, int>, a: seq<(TileKey, int)>, b: seq<(TileKey, int)>)
    ensures ApplyBatch(ApplyBatch(m, a), b) == ApplyBatch(ApplyBatch(m, b), a)
  {
    ApplyBatchAppend(m, a, b);
    ApplyBatchAppend(m, b, a);
    forall k, t
      ensures Offered(m, a + b, k, t) <==> Offered(m, b + a, k, t)
    {
      assert (k, t) in a + b <==> (k, t) in a || (k, t) in b;
      assert (k, t) in b + a <==> (k, t) in a || (k, t) in b;
    }
    SameOffersSameTable(m, a + b, b + a);
  }

  /** `INSERT OR IGNORE INTO processed_files`: a new name gets `now`, a known one keeps its time. */
  function MarkProcessed(p: map<string, int>, filename: string, now: int): map<string, int> {
    if filename in p then p else p[filename := now]
  }

  /** Marking records the name, never alters an earlier entry, and marking again changes nothing. */
  lemma MarkProcessedInsertOrIgnore(p: map<string, int>, filename: string, now: int, later: int)
    ensures filename in MarkProcessed(p, filename, now)
    ensures forall f :: f in p ==> f in MarkProcessed(p, filename, now) && MarkProcessed(p, filename, now)[f] == p[f]
    ensures MarkProcessed(p, filename, now).Keys == p.Keys + {filename}
    ensures MarkProcessed(MarkProcessed(p, filename, now), filename, later) == MarkProcessed(p, filename, now)
  {
  }

  /**
   * The database connection: the two tables. SQLite errors are not
   * predicted by the model; each writing method takes the point where the
   * engine fails, if it does, as an input.
   */
  class Store {
    var tiles: map<TileKey, int>
    var processed: map<string, int>

    /** `init_db` on a fresh database: both tables empty. */
    constructor ()
      ensures tiles == map[] && processed == map[]
    {
      tiles := map[];
      processed := map[];
    }

    /** `is_file_processed`: whether the name has a row. */
    method IsFileProcessed(filename: string, fails: bool) returns (r: DbResult<bool>)
      ensures fails <==> r.DbError?
      ensures r.Ok? ==> (r.value <==> filename in processed)
    {
      if fails {
        return DbError;
      }
      return Ok(filename in processed);
    }

    /** `mark_file_processed`, with the clock reading `now` as an input. */
    method MarkFileProcessed(filename: string, now: int, fails: bool) returns (r: DbResult<()>)
      modifies this
      ensures fails <==> r.DbError?
      ensures tiles == old(tiles)
      ensures processed == if fails then old(processed) else MarkProcessed(old(processed), filename, now)
    {
      if fails {
        return DbError;
      }
      if filename !in processed {
        processed := processed[filename := now];
      }
      return Ok(());
    }

    /** `insert_tile`: one upsert. */
    method InsertTile(key: TileKey, visitedAt: int, fails: bool) returns (r: DbResult<()>)
      modifies this
      ensures fails <==> r.DbError?
      ensures processed == old(processed)
      ensures tiles == if fails then old(tiles) else Upsert(old(tiles), key, visitedAt)
    {
      if fails {
        return DbError;
      }
      tiles := Upsert(tiles, key, visitedAt);
      return Ok(());
    }

    /**
     * `insert_tiles_batch`: the rows upserted in order inside one
     * transaction. `failAt` is where SQLite fails, if it does: `Some(i)` with
     * `i < |batch|` at row `i`, any larger `i` at the commit. On a failure
     * the transaction is dropped and the table is as before.
     */
    method InsertTilesBatch(batch: seq<(TileKey, int)>, failAt: Option<nat>) returns (r: DbResult<()>)
      modifies this
      ensures r.Ok? <==> failAt.None?
      ensures processed == old(processed)
      ensures tiles == if r.Ok? then ApplyBatch(old(tiles), batch) else old(tiles)
    {
      var pending := tiles;
      var i := 0;
      while i < |batch|
        invariant 0 <= i <= |batch|
        invariant failAt.Some? ==> i <= failAt.value
        invariant ApplyBatch(tiles, batch) == ApplyBatch(pending, batch[i..])
      {
        if failAt == Some(i) {
          return DbError;
        }
        assert batch[i..] == [batch[i]] + batch[i + 1..];
        pending := Upsert(pending, batch[i].0, batch[i].1);
        i := i + 1;
      }
      if failAt.Some? {
        return DbError;
      }
      tiles := pending;
      return Ok(());
    }

    /** `get_all_tiles`: one record per stored key, in no particular order. */
    method GetAllTiles() returns (records: seq<TileRecord>)
      ensures |records| == |tiles|
      ensures forall i :: 0 <= i < |records| ==>
        KeyOf(records[i]) in tiles && tiles[KeyOf(records[i])] == records[i].firstVisitedAt
      ensures forall i, j :: 0 <= i < j < |records| ==> KeyOf(records[i]) != KeyOf(records[j])
      ensures forall k :: k in tiles ==> exists i :: 0 <= i < |records| && KeyOf(records[i]) == k
    {
      records := [];
      var rest := tiles.Keys;
      while rest != {}
        invariant rest <= tiles.Keys
        invariant |records| + |rest| == |tiles.Keys|
        invariant forall i :: 0 <= i < |records| ==>
          KeyOf(records[i]) in tiles && KeyOf(records[i]) !in rest
          && tiles[KeyOf(records[i])] == records[i].firstVisitedAt
        invariant forall i, j :: 0 <= i < j < |records| ==> KeyOf(records[i]) != KeyOf(records[j])
        invariant forall k :: k in tiles && k !in rest ==> exists i :: 0 <= i < |records| && KeyOf(records[i]) == k
        decreases |rest|
      {
        var k :| k in rest;
        ghost var before := records;
        records := records + [TileRecord(k.x, k.y, k.z, tiles[k])];
        forall j | j in tiles && j !in rest - {k}
          ensures exists i :: 0 <= i < |records| && KeyOf(records[i]) == j
        {
          if j == k {
            assert KeyOf(records[|records| - 1]) == j;
          } else {
            var i :| 0 <= i < |before| && KeyOf(before[i]) == j;
            assert records[i] == before[i];
          }
        }
        rest := rest - {k};
      }
    }

    /** `get_tile_count`: the number of stored keys. */
    method GetTileCount() returns (n: nat)
      ensures n == |tiles.Keys|
    {
      n := |tiles|;
    }
  }
}
