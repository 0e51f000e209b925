# strava_rust tile engine, modelled in Dafny

The tool downloads Strava activities as GPX files and ingests them into a
SQLite table of map tiles at zoom 14. Each tile remembers the earliest
moment it was visited. On top of that table it computes two statistics:
- the *Yard*: the largest 4-connected group of tiles whose four neighbours
  have all been visited;
- the *Übersquadrat*: the largest fully visited square.

This project models the core of that engine and proves properties of the
model:

- **Timestamp parsing.** Both ISO-8601 parsers are modelled:
  - `parse_iso8601` of `src/tiles.rs`, on `i32` fields;
  - `parse_iso8601` of `src/map_server.rs`, on `u32` fields, clamped at 0.

  Both follow the Gregorian calendar and its day-counting loop. A checked
  overflow or an out-of-range index panics in a debug build, and is
  modelled as an explicit `Panicked` outcome
  (`calendar.dfy`, `iso8601.dfy`, `numbers.dfy`).
- **Track-file scanning.** The tolerant substring scanner of `src/tiles.rs`
  reads the following out of a GPX file (`gpx_scan.dfy`, `text.dfy`):
  - each `<trkpt` with its `lat`/`lon`;
  - each point's time, falling back to the metadata time, then to 0;
  - the track name;
  - the activity id carried by the file name.
- **The tile store.** `src/database.rs` is modelled as a class with two
  fields: a map from `(x, y, z)` to the first visit, and the set of
  processed files (`tile_store.dfy`). Upserts keep the minimum time.
  Batches are all-or-nothing.
- **Ingestion.** `process_gpx_file` reduces a file to one earliest time per
  tile and upserts them in one batch. Only after that does it mark the
  file as processed (`ingest.dfy`).
- **The statistics.**
  - Yard (`yard.dfy`): the breadth-first search over the surrounded
    tiles, proved to return a largest connected component.
  - Übersquadrat (`square.dfy`): the largest-square dynamic program over
    the bounding box, proved to return a largest covered square, the first
    one in row-major order.
- **XML and URLs** (`strava.dfy`):
  - `xml_escape` and its inverse;
  - the authorisation URL;
  - the GPX document built by `build_gpx_xml`.
- **Map-server helpers** (`map_server.dfy`):
  - the time a GPX file is listed under;
  - the download file-name guard;
  - the corner tiles of the square's map bounds.

## Model

| member | source | states |
|---|---|---|
| Calendar.CumulativeMonthDaysSumsLengths | src/tiles.rs:154 | the cumulative month table is the running sum of the month lengths of a common year, ending at 365 |
| Calendar.DaysBeforeYearClosedForm | src/tiles.rs:150-153 | the days the year loop adds up equal 365 per year plus one per Gregorian leap year since 1970 |
| Calendar.GregorianCycle | src/tiles.rs:164-166 | 400 years always add 146097 days, the Gregorian cycle |
| Calendar.DayOfYearInYear | src/tiles.rs:154-159 | for a valid day, the offset of month and day lies inside the year |
| Numbers.ParseShortDigits | src/tiles.rs:132-133 | up to nine decimal digits always parse, as `i32` and as `u32`, to their value |
| Numbers.ParseInt | src/tiles.rs:131-133 | `str::parse` for a 32-bit type: a result lies in the type's range, needs a digit or a sign first and only digits after it, and is not negative without a `-` |
| Numbers.StrayCharRejected | src/map_server.rs:176-177 | a field with a non-digit inside does not parse, so `filter_map` drops it |
| Iso8601.CountYearDays | src/tiles.rs:150-153 | the mutable year loop yields the days before 1 January of the year |
| Iso8601.TilesSeconds | src/tiles.rs:140-161 | the day and second arithmetic of src/tiles.rs, with the panic of a month outside 1..12; it also models the `day - 1` overflow on the least `i32`, which the parser cannot reach, since `split('-')` leaves no `-` in a field and a field without `-` never parses negative |
| Iso8601.ServerSeconds | src/map_server.rs:181-202 | the same arithmetic on `u32` fields: month 0, day 0 and a month above 12 panic, and the sum is clamped at 0 |
| Iso8601.ParseTilesTimestamp | src/tiles.rs:112-162 | src/tiles.rs's `parse_iso8601` as a method, equal to its specification `TilesTimestamp` |
| Iso8601.ParseServerTimestamp | src/map_server.rs:149-203 | src/map_server.rs's `parse_iso8601` as a method, equal to its specification `ServerTimestamp` |
| Iso8601.CutOffset | src/tiles.rs:114-124 | the offset cut keeps a prefix of the text; the last `-` cuts only when the text before it is more than 10 bytes of UTF-8, not 10 characters |
| Iso8601.DashPastByteTen | src/tiles.rs:116-118 | in `1-2-éééé-3T4:5` the last `-` is the ninth character but stands at byte 12, so the text is cut there and the `T` goes with it |
| Iso8601.DashCutTakesSeparator | src/tiles.rs:116-129 | when the last `-` stands past byte 10 and the `T` comes after it, both parsers read 0 |
| Iso8601.NoSeparatorLeft | src/tiles.rs:126-129 | text whose stripped form has no `T` reads as 0 in both parsers |
| Iso8601.ZuluDropped | src/tiles.rs:113 | a trailing `Z` is removed |
| Iso8601.OffsetDropped | src/tiles.rs:114-124 | a `+hh:mm` or `-hh:mm` offset is cut off, not applied |
| Iso8601.ValuesAgree | src/map_server.rs:181-202 | on a real date with a clock without negative fields both computations give the same seconds since 1970 |
| Iso8601.ServerDropsFraction | src/map_server.rs:174-179 | on `u32`, the seconds field `SS.frac` does not parse and `filter_map` leaves only hour and minute |
| Iso8601.NoSeparatorGivesZero | src/tiles.rs:126-129 | text without `T` does not split into two parts, and both parsers return 0 |
| Iso8601.ZoneIgnored | src/tiles.rs:113-124 | a trailing `Z`, `+hh:mm` or `-hh:mm` is cut off whole and nothing else is, so the zone never changes the result |
| Iso8601.ZoneIgnoredByParsers | src/map_server.rs:153-167 | text that strips to the same stamp parses to the same value in both parsers |
| Iso8601.TilesTimestampOfStamp | src/tiles.rs:131-161 | a well-formed `YYYY-MM-DDTHH:MM[:SS][.frac]` gives days×86400 + HH×3600 + MM×60 + SS; seconds default to 0 and the fraction is dropped; a month outside 1..12 panics |
| Iso8601.VariantsAgree | src/map_server.rs:190-202 | with seconds and no fraction, the `u32` variant gives the same value as the `i32` one |
| Iso8601.ServerRejectsFraction | src/map_server.rs:174-179 | the `u32` variant returns 0 on a stamp with a fraction, where the `i32` variant ignores the fraction |
| Iso8601.EpochSecondsNonNegative | src/map_server.rs:202 | from 1970 on, with non-negative fields, the count is not negative |
| Text.ByteLen | src/tiles.rs:98 | `str::len` counts UTF-8 bytes, at least one per character |
| Text.AsciiByteLen | src/tiles.rs:117 | ASCII text is as many bytes long as it has characters |
| Text.ByteLenAppend | src/tiles.rs:98 | byte lengths add up under concatenation |
| Text.Boundary | src/tiles.rs:99 | the number of characters that fill exactly `n` bytes, or none when byte `n` falls inside a character, which is where `&s[..n]` panics |
| GpxScan.ExtractAttr | src/tiles.rs:84-90 | a value is read only where `attr="` occurs |
| GpxScan.AttrReads | src/tiles.rs:84-90 | `attr="v"` is read back as the parse of `v` |
| GpxScan.TrkptBody | src/tiles.rs:97-99 | a point's time is searched up to its `</trkpt>`; with none, in the whole text when it is at most 500 bytes, else in its first 500 bytes; slicing there panics exactly when no prefix of the text is 500 bytes long |
| GpxScan.WindowSplitsCharacter | src/tiles.rs:98-99 | a point text without `</trkpt>` whose 500th byte begins a multi-byte character (499 ASCII characters, then that character) makes the window slice panic |
| GpxScan.ExtractAllPoints | src/tiles.rs:168-206 | the search loop over `<trkpt` returns what the specification `AllPoints` says |
| GpxScan.ScanPoints | src/tiles.rs:186-203 | the `find` loop that resumes after each match reads exactly the occurrences of the pattern, in order, and stops at the first panic |
| GpxScan.AllPointsDescribed | src/tiles.rs:186-205 | one point per `<trkpt` whose `lat` and `lon` both parse, in document order, each with its own time, else the metadata time, else 0; a panic only where a kept point's time extraction panics, that is, at a 500-byte window that splits a character or at a bad month |
| GpxScan.TrackNameReads | src/tiles.rs:209-217 | the track name is the text between the first `<name>` and the next `</name>` |
| GpxScan.ExtractActivityId | src/tiles.rs:220-227 | an id exists exactly when the name ends in `.gpx` |
| GpxScan.ActivityIdOfExport | src/tiles.rs:222-223 | `activity_<id>.gpx` gives `<id>` |
| GpxScan.ActivityIdOfOtherName | src/tiles.rs:224-226 | any other `<name>.gpx` gives `<name>` |
| TileStore.UpsertKeepsMinimum | src/database.rs:59-66 | an upsert stores the time for a new key and the smaller time for a stored one, and changes no other key |
| TileStore.ApplyBatchEarliest | src/database.rs:73-79 | after a batch, a key is stored exactly when it was stored or offered, with the earliest time offered for it |
| TileStore.ApplyBatchIdempotent | src/database.rs:73-74 | applying the same batch twice equals applying it once |
| TileStore.ApplyBatchCommutes | src/database.rs:77-79 | two batches give the same table in either order |
| TileStore.MarkProcessedInsertOrIgnore | src/database.rs:50-53 | marking adds the file name, never alters an existing entry, and marking again changes nothing |
| TileStore.Store.constructor | src/database.rs:11-28 | a fresh store has no tiles and no processed files |
| TileStore.Store.IsFileProcessed | src/database.rs:34-41 | true exactly when the file name is recorded, unless the engine fails |
| TileStore.Store.MarkFileProcessed | src/database.rs:44-54 | insert-or-ignore of the file name; the tiles are unchanged |
| TileStore.Store.InsertTile | src/database.rs:59-66 | one min-upsert of the tiles table, or no change on failure |
| TileStore.Store.InsertTilesBatch | src/database.rs:69-83 | all rows are upserted and committed, or, on a failure at any row or at the commit, the table is unchanged |
| TileStore.Store.GetAllTiles | src/database.rs:86-98 | one record per stored key, carrying that key's time, no key twice |
| TileStore.Store.GetTileCount | src/database.rs:101-104 | the number of stored keys |
| Ingest.CollectTileTimes | src/tiles.rs:248-256 | the `tile_times` loop yields the specification `TileTimes` |
| Ingest.TileTimesEarliest | src/tiles.rs:250-255 | a tile has an entry exactly when a point falls in it, and the entry is the earliest time among those points |
| Ingest.ToBatch | src/tiles.rs:259-272 | the batch lists every entry of the map exactly once, so its length is the number of distinct tiles |
| Ingest.BatchMerges | src/tiles.rs:275 | upserting those rows, in any order, merges the map into the table by minimum |
| Ingest.ProcessGpxFile | src/tiles.rs:230-296 | a processed file gives `Ok(0)` and no change; otherwise the tiles are merged and the distinct-tile count returned; the file is marked only after the batch succeeded; each store failure leaves the state as the source does |
| Ingest.ReingestHarmless | src/tiles.rs:248-275 | merging a file's tile times into the table a second time changes nothing, since each tile keeps its earliest time |
| Yard.Neighbours | src/tiles.rs:428-439 | the search looks at exactly the 4-adjacent tiles; left and up only where x > 0 or y > 0 |
| Yard.SurroundedTiles | src/tiles.rs:390-404 | the input tiles whose left, right, up and down neighbours are all in the input |
| Yard.Enqueue | src/tiles.rs:438-443 | the neighbours still unvisited are queued in order and removed from `unvisited` |
| Yard.Explore | src/tiles.rs:418-445 | the breadth-first search from a seed returns distinct tiles, all of the seed's component in the surrounded set and nothing else, and removes them from `unvisited` |
| Yard.MaxCluster | src/tiles.rs:377-455 | size equals the tile count; the tiles are distinct, surrounded, input tiles that form one connected component; the result is empty iff no tile is surrounded; no connected set of surrounded tiles is larger |
| Yard.BlockHasCentreOnly | src/tiles.rs:390-404 | in a full 3×3 block only the centre tile is surrounded |
| Square.Least | src/tiles.rs:474 | `min().unwrap()` is a member of the list and at most every member |
| Square.Greatest | src/tiles.rs:475 | `max().unwrap()` is a member of the list and at least every member |
| Square.SideBound | src/tiles.rs:493-496 | the table value at relative `(x, y)` is at most `min(x, y) + 1` |
| Square.SideCovered | src/tiles.rs:490-497 | the table value at a cell is the side of a covered square ending there |
| Square.SideMaximal | src/tiles.rs:490-497 | no larger covered square ends at that cell |
| Square.TopLeftAsWritten | src/tiles.rs:502 | the subtraction as written panics exactly when the square touches the grid's edge at 0 |
| Square.TopLeftUnderflows | src/tiles.rs:502 | the single tile `(0, 0)` makes the written subtraction panic, where the corrected one gives 0 |
| Square.RowZeroReachesUnderflow | src/tiles.rs:486-502 | for every input with a tile in row 0, the scan reaches the first visited cell of the box's first row while the maximum is still 0; that cell's side 1 beats the maximum, and line 502 as written then computes `0 - 1` and panics |
| Square.FirstInRow | src/tiles.rs:486-499 | the row-major scan meets the first visited cell of the first row with no earlier cell having raised the maximum |
| Square.OneTileReachesUnderflow | src/tiles.rs:459-502 | on `[(0, 0)]` the box is the one cell `(0, 0)`; the scan sets the maximum to 1 there, and the written corner panics |
| Square.TopLeft | src/tiles.rs:502 | adding before subtracting gives the top-left corner without underflow |
| Square.FillCell | src/tiles.rs:490-504 | one cell of the table and the running maximum, kept as the scan invariant says |
| Square.MaxSquareOf | src/tiles.rs:459-513 | empty input gives `(0, 0, 0)`; otherwise the reported square is covered; no covered square is larger; among the largest it is the first reached in row-major order (the strict `>` at line 499) |
| MapServer.ExtractGpxTime | src/map_server.rs:137-147 | the result is never negative, and a file without `<time>` gives 0 |
| MapServer.GpxTimeReads | src/map_server.rs:137-147 | the text of the first `<time>…</time>` anywhere in the file is what gets parsed |
| MapServer.GpxTimeOfStamp | src/map_server.rs:137-147 | a file whose first `<time>` holds a stamp with seconds is listed under the same time src/tiles.rs gives its points |
| MapServer.ServeGpxFile | src/map_server.rs:251-271 | a request is refused exactly when the name contains `..`, `/` or `\`; otherwise the file is served if it can be read, else not found |
| MapServer.ServedPathStaysInDir | src/map_server.rs:251-258 | an accepted name joins to a path of exactly two components, `gpx` and the name, neither of them `..` |
| MapServer.SquareCorners | src/map_server.rs:736-750 | for a non-empty square, the corner tiles are `(tlx, tly + size - 1)` and `(tlx + size - 1, tly)`; none for size 0 |
| MapServer.SquareBounds | src/map_server.rs:736-750 | the bounds are the south-west of the bottom-left tile and the north-east of the top-right one, or all zeros for size 0 |
| MapServer.CornersSpanSquare | src/map_server.rs:736-750 | the box between the two corners is all visited exactly when the square is covered |
| MapServer.CornersVisited | src/map_server.rs:736-750 | both corner tiles of a covered square are visited |
| Strava.CountChar | src/strava.rs:333-337 | a count of zero means the character does not occur |
| Strava.XmlEscapeExpands | src/strava.rs:333-337 | the three chained replaces equal one pass that maps `&`, `<` and `>` to their entities |
| Strava.UnescapeEscape | src/strava.rs:334-336 | undoing `&lt;`, then `&gt;`, then `&amp;` gives back the input of `xml_escape` |
| Strava.EscapedHasNoAngles | src/strava.rs:333-337 | the output has no `<` and no `>` |
| Strava.EscapedAmpsStartEntities | src/strava.rs:333-337 | every `&` in the output starts `&amp;`, `&lt;` or `&gt;` |
| Strava.EscapedLength | src/strava.rs:333-337 | the output is 4 longer per `&` and 3 longer per `<` and per `>` |
| Strava.EscapeIdentity | src/strava.rs:333-337 | text without `&`, `<` and `>` is unchanged |
| Strava.SplitOfJoin | src/strava.rs:114-117 | joining pieces that hold no separator and splitting again gives the pieces |
| Strava.AuthorizeUrlParams | src/strava.rs:113-118 | the query starts at the URL's first `?`, and splits on `&` into the five parameters, with the client id and redirect URI verbatim and the fixed scope |
| Strava.BuildGpxXml | src/strava.rs:277-331 | the string appended to piece by piece equals the rendering of the document's lines `GpxLines` |
| Strava.WriteHead | src/strava.rs:278-293 | the pushes before the loop: prologue, metadata when there is a start date, track head with the escaped name |
| Strava.WritePoint | src/strava.rs:296-326 | one round of the loop appends exactly the lines of point `i` to what the earlier pushes wrote |
| Strava.Push | src/strava.rs:279 | one `push_str` appends the text of one more line to the document so far |
| Strava.PushElevation | src/strava.rs:303-322 | the `<ele>` push happens exactly when the altitude stream has index `i` |
| Strava.PushTime | src/strava.rs:308-325 | the point `<time>` push happens exactly when there is a start time and the time stream has index `i`, at start plus offset |
| Strava.PointTally | src/strava.rs:303-326 | a point has one opening and one closing tag, an elevation iff the altitude stream has index i, a time iff there is a start time and the time stream has index i |
| Strava.GpxTally | src/strava.rs:284-327 | a metadata block iff there is a start date; one `<trkpt>` element per coordinate; one `<ele>` per point with an altitude; one point `<time>` per point with an offset when the start date parses, none otherwise |
| Strava.GpxNameEscaped | src/strava.rs:290-293 | the `<name>` line holds the escaped name, which has no angle bracket and unescapes to the name |

## Left out

- Floating point is left out: the projection `lat_lon_to_tile`, `tile_to_bounds`, haversine distances and the `f64` parse in `extract_attr`. The projection and the parse are function-valued parameters; the distance only labels the activity ledger.
- The formatting of numbers and dates in `build_gpx_xml` (`{:.7}`, `{:.2}`, `to_rfc3339`) and the parse of the start date are function-valued parameters. `chrono`'s overflow panic on `st + Duration::seconds(secs)` is not modelled: the sum is taken as an integer.
- The HTTP handlers, routing, locking, the OAuth exchange and every Strava API call are left out, as are the CLI in `src/main.rs` and directory scanning (`process_all_gpx_files`, `list_gpx_files`).
- The sort by time in `list_gpx_files` (`files.sort_by`) belongs to that handler and is left out with it.
- `init_db` and the SQL schema are left out: the store starts empty. SQLite failures are inputs that say where the engine fails. The read queries `get_all_tiles` and `get_tile_count` are modelled without failures.
- The activity ledger is left out (`mark_activity_imported`, the id, title and distance it records): it is not defined in `src/database.rs`, whose table holds only x, y, z and time.
- The wall-clock `processed_at` is the parameter `now`.
- `HashSet` and `HashMap` iteration order is not modelled:
  - the Yard's seed is any unvisited tile;
  - the batch lists the map's entries in any order.
- Yard.MaxCluster: the result is a valid largest cluster for every seed order. The model does not say which of several equally large clusters the program returns.
- Tile coordinates are unbounded naturals; `u32` overflow at `u32::MAX` (`x + 1`, `abs_x`, the corner sums) is not modelled.
- Text positions are character indices. The source slices by byte offsets, which agree wherever it slices at a match of an ASCII pattern. The two places where it uses a byte count as a number, the 500-byte point window and the offset cut past byte 10, are modelled with the UTF-8 length Text.ByteLen.
- Strava.AuthorizeUrlParams: holds only for a client id and redirect URI without `&`, since the URL inserts them without percent-encoding.
- MapServer.ServedPathStaysInDir: covers `/`-separated paths only; Windows drive prefixes, which `PathBuf::join` would honour, are not modelled.
- Square.MaxSquareOf: models line 502 as corrected, `abs + 1 - max_size` (TopLeft). A release build's wrap-around gives that same value. The debug-build panic of the code as written is not modelled here. Square.RowZeroReachesUnderflow shows that panic on every input with a tile in row 0; other inputs panic there as well.
- Square.FillCell: computes the corner with the corrected TopLeft as well, so it does not model the debug-build panic of line 502.

## Findings

| source | as written | input that shows it | evidently intended | confidence | as-written member | corrected member |
|---|---|---|---|---|---|---|
| src/tiles.rs:502 | `max_pos = (abs_x - max_size + 1, abs_y - max_size + 1)` on `u32` subtracts first, so a square that reaches column 0 or row 0 underflows, which panics in a debug build | `calculate_max_square_from_coords(&[(0, 0)])` | the top-left tile `(abs_x + 1 - max_size, abs_y + 1 - max_size)`, here `(0, 0)` | not executed | Square.OneTileReachesUnderflow | Square.TopLeft |
