/**
 * The pure pieces of src/map_server.rs: the time a GPX file is listed
 * under, the file-name guard of the download handler, and the corner tiles
 * that turn the largest square into map bounds.
 */
module MapServer {
  import opened Wrappers
  import opened Numbers
  import opened Text
  import opened Iso8601
  import opened GpxScan
  import opened Yard
  import opened Square

  // ---------------------------------------------------------------------
  // extract_gpx_time

  /**
   * `extract_gpx_time`: the first `<time>` element anywhere in the text,
   * parsed by this file's `parse_iso8601`; 0 when there is no `<time>` or
   * no `</time>` after it.
   */
  function ExtractGpxTime(content: string): (r: Outcome<int>)
    ensures r.Value? ==> r.value >= 0
    ensures !Contains(content, "<time>") ==> r == Value(0)
  {
    match Element(content, "<time>", "</time>")
    case None => Value(0)
    case Some(t) => ServerTimestamp(t)
  }

  /** A pattern whose first character does not occur in `s` does not occur in it. */
  lemma FirstCharAbsent(s: string, pat: string)
    requires |pat| > 0 && pat[0] !in s
    ensures !Contains(s, pat)
  {
  }

  /** The text of the first `<time>` element is what gets parsed. */
  lemma GpxTimeReads(a: string, t: string, b: string)
    requires !Contains(a, "<time>") && !Contains(t, "</time>")
    ensures ExtractGpxTime(a + "<time>" + t + "</time>" + b) == ServerTimestamp(t)
  {
    assert "<time>"[0] !in "<time>"[1..];
    assert "</time>"[0] !in "</time>"[1..];
    ElementReads(a, "<time>", t, "</time>", b);
  }

  /**
   * A file whose first `<time>` holds a stamp with seconds and no fraction
   * is listed under the same time src/tiles.rs would give its points.
   */
  lemma GpxTimeOfStamp(a: string, y: string, mo: string, d: string, h: string, mi: string, sec: string, b: string)
    requires WellFormed(y, mo, d, h, mi, sec, []) && |sec| == 2
    requires 1 <= DigitsValue(mo) <= 12 && DigitsValue(d) >= 1
    requires !Contains(a, "<time>")
    ensures var stamp := Stamp(y, mo, d, h, mi, sec, []);
      && ExtractGpxTime(a + "<time>" + stamp + "</time>" + b) == TilesTimestamp(stamp)
      && TilesTimestamp(stamp).Value?
  {
    var stamp := Stamp(y, mo, d, h, mi, sec, []);
    DigitsLackChar(y, '<'); DigitsLackChar(mo, '<'); DigitsLackChar(d, '<');
    DigitsLackChar(h, '<'); DigitsLackChar(mi, '<'); DigitsLackChar(sec, '<');
    assert stamp == y + "-" + mo + "-" + d + "T" + h + ":" + mi + ":" + sec;
    assert '<' !in stamp;
    FirstCharAbsent(stamp, "</time>");
    GpxTimeReads(a, stamp, b);
    VariantsAgree(y, mo, d, h, mi, sec);
  }

  // ---------------------------------------------------------------------
  // serve_gpx_file

  /** The download guard: no `..`, no `/` and no `\` anywhere in the name. */
  predicate IsSafeGpxName(name: string) {
    !Contains(name, "..") && '/' !in name && '\\' !in name
  }

  /** `PathBuf::from("gpx").join(name)`, for a name the guard let through. */
  function GpxPath(name: string): string {
    "gpx/" + name
  }

  /** The three answers of `serve_gpx_file`. */
  datatype Response = BadRequest | Served(content: string) | NotFound

  /**
   * `serve_gpx_file`: an unsafe name is refused before any path is built;
   * otherwise the file under `gpx/` is served when it can be read. The
   * file system is the parameter `read`.
   */
  function ServeGpxFile(name: string, read: string -> Option<string>): (r: Response)
    ensures r.BadRequest? <==> !IsSafeGpxName(name)
    ensures r.Served? ==> read(GpxPath(name)) == Some(r.content)
    ensures r.NotFound? ==> read(GpxPath(name)).None?
  {
    if !IsSafeGpxName(name) then BadRequest
    else match read(GpxPath(name))
      case None => NotFound
      case Some(content) => Served(content)
  }

  /**
   * A path the handler reads has exactly two components, `gpx` and the
   * name, and neither is `..`: a download never leaves the `gpx`
   * directory.
   */
  lemma ServedPathStaysInDir(name: string, read: string -> Option<string>)
    requires !ServeGpxFile(name, read).BadRequest?
    ensures Split(GpxPath(name), '/') == ["gpx", name]
    ensures forall i :: 0 <= i < 2 ==> Split(GpxPath(name), '/')[i] != ".."
  {
    assert GpxPath(name) == "gpx" + ['/'] + name;
    SplitPlaced("gpx", '/', name);
    SplitWhole(name, '/');
    if name == ".." {
      assert IsAt(name, "..", 0);
    }
  }

  // ---------------------------------------------------------------------
  // The square's corners in get_square_cluster

  /**
   * The tiles whose bounds `get_square_cluster` asks for: the bottom-left
   * tile `(tlx, tly + size - 1)` for the south-west corner and the
   * top-right tile `(tlx + size - 1, tly)` for the north-east one; none for
   * an empty square.
   */
  function SquareCorners(sq: MaxSquare): (r: Option<(Tile, Tile)>)
    ensures r.Some? <==> sq.size > 0
    ensures r.Some? ==> var (sw, ne) := r.value;
      && sw.0 == sq.topLeftX && ne.1 == sq.topLeftY
      && ne.0 - sw.0 == sq.size - 1 && sw.1 - ne.1 == sq.size - 1
  {
    if sq.size == 0 then None
    else Some(((sq.topLeftX, sq.topLeftY + sq.size - 1), (sq.topLeftX + sq.size - 1, sq.topLeftY)))
  }

  /** `tile_to_bounds` at the fixed zoom, which the model leaves opaque: south, west, north, east. */
  type TileBounds = Tile -> (real, real, real, real)

  /**
   * The `[[south, west], [north, east]]` of the square: the south-west
   * corner of its bottom-left tile and the north-east corner of its
   * top-right tile, or all zeros for an empty square.
   */
  function SquareBounds(sq: MaxSquare, bounds: TileBounds): (r: ((real, real), (real, real)))
    ensures sq.size == 0 ==> r == ((0.0, 0.0), (0.0, 0.0))
    ensures sq.size > 0 ==>
      var (sw, ne) := SquareCorners(sq).value;
      r.0 == (bounds(sw).0, bounds(sw).1) && r.1 == (bounds(ne).2, bounds(ne).3)
  {
    match SquareCorners(sq)
    case None => ((0.0, 0.0), (0.0, 0.0))
    case Some((sw, ne)) => ((bounds(sw).0, bounds(sw).1), (bounds(ne).2, bounds(ne).3))
  }

  /**
   * The box between the two corner tiles is exactly the square: it is all
   * visited precisely when the square is covered.
   */
  lemma CornersSpanSquare(visited: set<Tile>, sq: MaxSquare)
    requires sq.size > 0
    ensures var (sw, ne) := SquareCorners(sq).value;
      Covered(visited, sq.topLeftX, sq.topLeftY, sq.size)
      <==> forall i: nat, j: nat :: sw.0 <= i <= ne.0 && ne.1 <= j <= sw.1 ==> (i, j) in visited
  {
  }

  /** For a covered square, both corner tiles are visited tiles. */
  lemma CornersVisited(visited: set<Tile>, sq: MaxSquare)
    requires sq.size > 0 && Covered(visited, sq.topLeftX, sq.topLeftY, sq.size)
    ensures SquareCorners(sq).value.0 in visited && SquareCorners(sq).value.1 in visited
  {
    var (sw, ne) := SquareCorners(sq).value;
    assert sq.topLeftX <= sw.0 < sq.topLeftX + sq.size && sq.topLeftY <= sw.1 < sq.topLeftY + sq.size;
    assert sq.topLeftX <= ne.0 < sq.topLeftX + sq.size && sq.topLeftY <= ne.1 < sq.topLeftY + sq.size;
  }
}
