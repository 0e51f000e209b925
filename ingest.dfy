/**
 * `process_gpx_file` of src/tiles.rs: the ingestion of one GPX file into
 * the tile store. A file already recorded as processed is skipped;
 * otherwise the points of the file are reduced to the earliest time per
 * tile, those tiles are upserted in one batch, and only then is the file
 * recorded as processed.
 */
module Ingest {
  import opened Wrappers
  import opened Numbers
  import opened GpxScan
  import opened TileStore

  /** `TILE_ZOOM`: every tile is stored at zoom level 14. */
  const TileZoom: nat := 14

  /** `lat_lon_to_tile(lat, lon, TILE_ZOOM)`, which the model leaves opaque. */
  type Projection = (real, real) -> (nat, nat)

  function TileOf(p: Point, project: Projection): TileKey {
    var (x, y) := project(p.lat, p.lon);
    TileKey(x, y, TileZoom)
  }

  /**
   * The `tile_times` map after the points, in order:
   * `entry(tile).and_modify(|t| *t = (*t).min(time)).or_insert(time)`.
   */
  function TileTimes(points: seq<Point>, project: Projection): map<TileKey, int>
    decreases |points|
  {
    if points == [] then map[]
    else
      var m := TileTimes(points[..|points| - 1], project);
      var p := points[|points| - 1];
      var k := TileOf(p, project);
      m[k := if k in m then Min(m[k], p.time) else p.time]
  }

  /**
   * Each tile some point falls in gets the earliest time among the points
   * in it, and no other tile gets an entry.
   */
  lemma {:induction false} TileTimesEarliest(points: seq<Point>, project: Projection, k: TileKey)
    decreases |points|
    ensures k in TileTimes(points, project) <==> exists i :: 0 <= i < |points| && TileOf(points[i], project) == k
    ensures k in TileTimes(points, project) ==>
      && (exists i :: 0 <= i < |points| && TileOf(points[i], project) == k && points[i].time == TileTimes(points, project)[k])
      && (forall i :: 0 <= i < |points| && TileOf(points[i], project) == k ==> TileTimes(points, project)[k] <= points[i].time)
  {
    if points != [] {
      var init := points[..|points| - 1];
      var n := |points| - 1;
      TileTimesEarliest(init, project, k);
      var m := TileTimes(init, project);
      var r := TileTimes(points, project);
      assert forall i :: 0 <= i < n ==> init[i] == points[i];
      if TileOf(points[n], project) == k {
        if k in m {
          var i :| 0 <= i < n && TileOf(init[i], project) == k && init[i].time == m[k];
          assert TileOf(points[i], project) == k && points[i].time == m[k];
        }
        forall i | 0 <= i < |points| && TileOf(points[i], project) == k
          ensures r[k] <= points[i].time
        {
          if i < n {
            assert TileOf(init[i], project) == k;
          }
        }
      } else {
        assert r == m[TileOf(points[n], project) := r[TileOf(points[n], project)]];
        if k in m {
          var i :| 0 <= i < n && TileOf(init[i], project) == k && init[i].time == m[k];
          assert TileOf(points[i], project) == k;
        }
        if exists i :: 0 <= i < |points| && TileOf(points[i], project) == k {
          var i :| 0 <= i < |points| && TileOf(points[i], project) == k;
          assert TileOf(init[i], project) == k;
        }
        forall i | 0 <= i < |points| && TileOf(points[i], project) == k
          ensures k in m && r[k] <= points[i].time
        {
          assert TileOf(init[i], project) == k;
        }
      }
    }
  }

  /** The `tile_times` loop of `process_gpx_file`. */
  method CollectTileTimes(points: seq<Point>, project: Projection) returns (times: map<TileKey, int>)
    ensures times == TileTimes(points, project)
  {
    times := map[];
    var i := 0;
    while i < |points|
      invariant 0 <= i <= |points|
      invariant times == TileTimes(points[..i], project)
    {
      var k := TileOf(points[i], project);
      if k in times {
        times := times[k := Min(times[k], points[i].time)];
      } else {
        times := times[k := points[i].time];
      }
      assert points[..i + 1][..i] == points[..i];
      i := i + 1;
    }
    assert points[..i] == points;
  }

  /** The rows of a batch are exactly the entries of `times`, each once. */
  ghost predicate ListsEntries(batch: seq<(TileKey, int)>, times: map<TileKey, int>) {
    && (forall k, t :: (k, t) in batch ==> k in times && times[k] == t)
    && (forall k :: k in times ==> (k, times[k]) in batch)
    && (forall i, j :: 0 <= i < j < |batch| ==> batch[i].0 != batch[j].0)
  }

  /** `tile_times.into_iter().map(...).collect()`: one row per entry, in no particular order. */
  method ToBatch(times: map<TileKey, int>) returns (batch: seq<(TileKey, int)>)
    ensures |batch| == |times|
    ensures ListsEntries(batch, times)
  {
    batch := [];
    var rest := times.Keys;
    while rest != {}
      invariant rest <= times.Keys
      invariant |batch| + |rest| == |times.Keys|
      invariant forall k, t :: (k, t) in batch ==> k in times && k !in rest && times[k] == t
      invariant forall k :: k in times && k !in rest ==> (k, times[k]) in batch
      invariant forall i, j :: 0 <= i < j < |batch| ==> batch[i].0 != batch[j].0
      decreases |rest|
    {
      var k :| k in rest;
      forall i | 0 <= i < |batch|
        ensures batch[i].0 != k
      {
        var (key, t) := batch[i];
        assert (key, t) in batch;
        assert key !in rest;
      }
      batch := batch + [(k, times[k])];
      rest := rest - {k};
    }
  }

  /** The table after merging `offered` into `m`, keeping the earlier time of each tile. */
  function Merge(m: map<TileKey, int>, offered: map<TileKey, int>): map<TileKey, int> {
    map k | k in m.Keys + offered.Keys ::
      if k in m && k in offered then Min(m[k], offered[k]) else if k in m then m[k] else offered[k]
  }

  /** Upserting the rows of a map, in any order, merges the map into the table. */
  lemma BatchMerges(m: map<TileKey, int>, batch: seq<(TileKey, int)>, offered: map<TileKey, int>)
    requires ListsEntries(batch, offered)
    ensures ApplyBatch(m, batch) == Merge(m, offered)
  {
    var r := ApplyBatch(m, batch);
    var g := Merge(m, offered);
    forall k
      ensures k in r <==> k in g
      ensures k in r ==> r[k] == g[k]
    {
      ApplyBatchEarliest(m, batch, k);
      if k in offered {
        assert (k, offered[k]) in batch;
      }
      if Mentioned(m, batch, k) && k !in m {
        var t :| (k, t) in batch;
      }
      if k in r {
        assert Offered(m, batch, k, r[k]);
        if k in offered {
          assert Offered(m, batch, k, offered[k]);
        }
        if k in m {
          assert Offered(m, batch, k, m[k]);
        }
      }
    }
  }

  /** Where the store fails, if it does: the lookup, a batch row or its commit, the mark. */
  datatype Faults = Faults(lookup: bool, batchAt: Option<nat>, mark: bool)

  /** `Ok(count)`, an `Err` from the store, or a panic while reading the points. */
  datatype Ingested = Done(count: nat) | Failed | Crashed

  /**
   * `process_gpx_file`. The track name, the distance and the activity id
   * it also computes only label the activity ledger, which is not part of
   * this model.
   */
  method ProcessGpxFile(store: Store, filename: string, content: string, parse: FloatParser,
                        project: Projection, now: int, faults: Faults) returns (r: Ingested)
    modifies store
    ensures faults.lookup ==> r == Failed && store.tiles == old(store.tiles) && store.processed == old(store.processed)
    ensures !faults.lookup && filename in old(store.processed) ==>
      r == Done(0) && store.tiles == old(store.tiles) && store.processed == old(store.processed)
    ensures !faults.lookup && filename !in old(store.processed) ==>
      match AllPoints(content, parse)
      case Panicked => r == Crashed && store.tiles == old(store.tiles) && store.processed == old(store.processed)
      case Value(points) =>
        var times := TileTimes(points, project);
        if faults.batchAt.Some? then
          r == Failed && store.tiles == old(store.tiles) && store.processed == old(store.processed)
        else
          && store.tiles == Merge(old(store.tiles), times)
          && (faults.mark ==> r == Failed && store.processed == old(store.processed))
          && (!faults.mark ==> r == Done(|times|) && store.processed == old(store.processed)[filename := now])
  {
    var known := store.IsFileProcessed(filename, faults.lookup);
    if known.DbError? {
      return Failed;
    }
    if known.value {
      return Done(0);
    }
    var points := ExtractAllPoints(content, parse);
    if points.Panicked? {
      return Crashed;
    }
    var times := CollectTileTimes(points.value, project);
    var batch := ToBatch(times);
    var count := |batch|;
    var inserted := store.InsertTilesBatch(batch, faults.batchAt);
    if inserted.DbError? {
      return Failed;
    }
    BatchMerges(old(store.tiles), batch, times);
    var marked := store.MarkFileProcessed(filename, now, faults.mark);
    if marked.DbError? {
      return Failed;
    }
    return Done(count);
  }

  /**
   * Offering a file's tile times a second time changes nothing, since the
   * merge keeps the earliest time. (That a file already marked processed
   * is skipped with no tiles is ProcessGpxFile's own contract.)
   */
  lemma ReingestHarmless(m: map<TileKey, int>, times: map<TileKey, int>)
    ensures Merge(Merge(m, times), times) == Merge(m, times)
  {
  }
}
