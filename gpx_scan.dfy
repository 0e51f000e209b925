/**
 * The tolerant text scanner of src/tiles.rs that reads track points out of
 * a GPX document by substring search: each `<trkpt`, its `lat` and `lon`
 * attributes, and its time (the point's own `<time>`, else the
 * `<metadata>` time, else 0); plus the track name and the activity id a
 * file name carries.
 */
module GpxScan {
  import opened Wrappers
  import opened Numbers
  import opened Text
  import opened Iso8601

  /** A track point: latitude, longitude, and seconds since 1970. */
  datatype Point = Point(lat: real, lon: real, time: int)

  /** `str::parse::<f64>`, which the model leaves opaque. */
  type FloatParser = string -> Option<real>

  /**
   * `extract_attr`: the text between `attr="` and the next `"`, parsed as a
   * number; None when either quote is missing or the parse fails.
   */
  function ExtractAttr(s: string, attr: string, parse: FloatParser): (r: Option<real>)
    ensures r.Some? ==> Contains(s, attr + "=\"")
  {
    var pattern := attr + "=\"";
    match Find(s, pattern)
    case None => None
    case Some(p) =>
      var rest := s[p + |pattern|..];
      match FindChar(rest, '"')
      case None => None
      case Some(e) => parse(rest[..e])
  }

  /** The text between the first `open` and the first `close` after it. */
  function Element(s: string, open: string, close: string): (r: Option<string>)
    ensures r.Some? ==> Contains(s, open)
  {
    match Find(s, open)
    case None => None
    case Some(t) =>
      var rest := s[t + |open|..];
      match Find(rest, close)
      case None => None
      case Some(e) => Some(rest[..e])
  }

  /** A `<time>` text parsed the way src/tiles.rs parses it, when there is one. */
  function ParsedTime(text: Option<string>): Outcome<Option<int>> {
    match text
    case None => Value(None)
    case Some(t) =>
      match TilesTimestamp(t)
      case Panicked => Panicked
      case Value(v) => Value(Some(v))
  }

  /**
   * The part of a point's text searched for its time: up to the first
   * `</trkpt>`, or else the first 500 bytes, or the whole text when it is
   * shorter. Slicing at byte 500 panics when that byte falls inside a
   * character.
   */
  function TrkptBody(segment: string): (r: Outcome<string>)
    ensures r.Value? ==> |r.value| <= |segment| && r.value == segment[..|r.value|]
    ensures Find(segment, "</trkpt>").Some? ==> r.Value? && IsAt(segment, "</trkpt>", |r.value|)
    ensures Find(segment, "</trkpt>").None? && ByteLen(segment) <= 500 ==> r == Value(segment)
    ensures Find(segment, "</trkpt>").None? && ByteLen(segment) > 500 ==>
      && (r.Value? ==> ByteLen(r.value) == 500)
      && (r.Panicked? <==> forall k :: 0 <= k <= |segment| ==> ByteLen(segment[..k]) != 500)
  {
    match Find(segment, "</trkpt>")
    case Some(e) => Value(segment[..e])
    case None =>
      if ByteLen(segment) <= 500 then (assert segment[..|segment|] == segment; Value(segment))
      else
        match Boundary(segment, 500)
        case Some(k) => Value(segment[..k])
        case None => Panicked
  }

  /**
   * A point text with no `</trkpt>` whose 500th byte is the first byte of
   * a multi-byte character (499 ASCII characters, then that character)
   * makes the window slice panic.
   */
  lemma WindowSplitsCharacter(a: string, c: char, b: string)
    requires Ascii(a) && |a| == 499 && c as int >= 0x80
    requires Find(a + [c] + b, "</trkpt>").None?
    ensures TrkptBody(a + [c] + b).Panicked?
  {
    var segment := a + [c] + b;
    AsciiByteLen(a);
    ByteLenAppend(a, [c]);
    ByteLenAppend(a + [c], b);
    forall k | 0 <= k <= |segment|
      ensures ByteLen(segment[..k]) != 500
    {
      if k <= 499 {
        assert segment[..k] == a[..k];
        AsciiByteLen(a[..k]);
      } else {
        assert segment[..k] == (a + [c]) + segment[500..k];
        ByteLenAppend(a + [c], segment[500..k]);
      }
    }
  }

  /** `extract_time_from_trkpt`: the time inside the point that starts at `pos`. */
  function ExtractTimeFromTrkpt(content: string, pos: nat): Outcome<Option<int>>
    requires pos <= |content|
  {
    match TrkptBody(content[pos..])
    case Panicked => Panicked
    case Value(body) => ParsedTime(Element(body, "<time>", "</time>"))
  }

  /**
   * The `<metadata>` time, the fallback of every point. The slice from
   * `<metadata>` to `</metadata>` panics when the closing tag comes first.
   */
  function MetadataTime(content: string): Outcome<Option<int>> {
    match Find(content, "<metadata>")
    case None => Value(None)
    case Some(st) =>
      match Find(content, "</metadata>")
      case None => Value(None)
      case Some(en) =>
        if en < st then Panicked
        else ParsedTime(Element(content[st..en], "<time>", "</time>"))
  }

  /** The point read at `pos`, as a list of zero (no coordinates) or one point. */
  function PointAt(content: string, pos: nat, fallback: Option<int>, parse: FloatParser): Outcome<seq<Point>>
    requires pos <= |content|
  {
    var segment := content[pos..];
    match (ExtractAttr(segment, "lat", parse), ExtractAttr(segment, "lon", parse))
    case (Some(lat), Some(lon)) =>
      (match ExtractTimeFromTrkpt(content, pos)
       case Panicked => Panicked
       case Value(t) => Value([Point(lat, lon, t.Or(fallback).GetOr(0))]))
    case _ => Value([])
  }

  /** Both lists, one after the other; a panic in either is a panic. */
  function Then(head: Outcome<seq<Point>>, tail: Outcome<seq<Point>>): Outcome<seq<Point>> {
    match head
    case Panicked => Panicked
    case Value(h) =>
      match tail
      case Panicked => Panicked
      case Value(t) => Value(h + t)
  }

  lemma ThenEmpty(o: Outcome<seq<Point>>)
    ensures Then(Value([]), o) == o
  {
    if o.Value? {
      assert [] + o.value == o.value;
    }
  }

  lemma ThenAssoc(a: seq<Point>, b: Outcome<seq<Point>>, c: Outcome<seq<Point>>)
    ensures Then(Value(a), Then(b, c)) == Then(Then(Value(a), b), c)
  {
    if b.Value? && c.Value? {
      assert a + (b.value + c.value) == a + b.value + c.value;
    }
  }

  /** What `read` gives at each of the positions, in order. */
  function ReadEach(positions: seq<nat>, read: nat -> Outcome<seq<Point>>): Outcome<seq<Point>> {
    if positions == [] then Value([])
    else Then(read(positions[0]), ReadEach(positions[1..], read))
  }

  /** `PointAt` at any position of the text (positions past the end read nothing). */
  function PointReader(content: string, fallback: Option<int>, parse: FloatParser): nat -> Outcome<seq<Point>> {
    (pos: nat) => if pos <= |content| then PointAt(content, pos, fallback, parse) else Value([])
  }

  /** Every `<trkpt` of the document, first to last. */
  function TrkptPositions(content: string): seq<nat> {
    Occurrences(content, "<trkpt", 0)
  }

  /** What `extract_all_points_with_time_from_gpx` returns. */
  function AllPoints(content: string, parse: FloatParser): Outcome<seq<Point>> {
    match MetadataTime(content)
    case Panicked => Panicked
    case Value(fallback) => ReadEach(TrkptPositions(content), PointReader(content, fallback, parse))
  }

  /** One round of the search loop: what is read at the next occurrence, then the rest. */
  lemma ReadStep(content: string, pat: string, k: nat, p: nat, read: nat -> Outcome<seq<Point>>)
    requires |pat| > 0 && pat[0] !in pat[1..]
    requires k <= |content| && Find(content[k..], pat) == Some(p)
    ensures k + p + |pat| <= |content|
    ensures ReadEach(Occurrences(content, pat, k), read)
            == Then(read(k + p), ReadEach(Occurrences(content, pat, k + p + |pat|), read))
  {
    OccurrencesAtFind(content, pat, k, p);
    var tail := Occurrences(content, pat, k + p + |pat|);
    assert ([k + p] + tail)[1..] == tail;
  }

  /**
   * What the search loop keeps: the points so far, followed by what the
   * occurrences from `k` on read, make up `spec`; one more round keeps it.
   */
  lemma ScanStep(content: string, pat: string, k: nat, pos: nat, read: nat -> Outcome<seq<Point>>,
                 spec: Outcome<seq<Point>>, points: seq<Point>)
    requires |pat| > 0 && pat[0] !in pat[1..]
    requires k <= pos <= |content| && Find(content[k..], pat) == Some(pos - k)
    requires spec == Then(Value(points), ReadEach(Occurrences(content, pat, k), read))
    ensures pos + |pat| <= |content|
    ensures read(pos).Panicked? ==> spec == Panicked
    ensures read(pos).Value? ==>
      spec == Then(Value(points + read(pos).value), ReadEach(Occurrences(content, pat, pos + |pat|), read))
  {
    ReadStep(content, pat, k, pos - k, read);
    ThenAssoc(points, read(pos), ReadEach(Occurrences(content, pat, pos + |pat|), read));
  }

  /** When no occurrence is left, the points so far are all there is. */
  lemma ScanDone(content: string, pat: string, k: nat, read: nat -> Outcome<seq<Point>>,
                 spec: Outcome<seq<Point>>, points: seq<Point>)
    requires k <= |content| && Find(content[k..], pat).None?
    requires spec == Then(Value(points), ReadEach(Occurrences(content, pat, k), read))
    ensures spec == Value(points)
  {
    OccurrencesNone(content, pat, k);
    assert points + [] == points;
  }

  /** `extract_all_points_with_time_from_gpx`. */
  method ExtractAllPoints(content: string, parse: FloatParser) returns (r: Outcome<seq<Point>>)
    ensures r == AllPoints(content, parse)
  {
    var meta := MetadataTime(content);
    if meta.Panicked? {
      return Panicked;
    }
    r := ScanPoints(content, "<trkpt", PointReader(content, meta.value, parse));
  }

  /**
   * The search loop of `extract_all_points_with_time_from_gpx`: find the
   * next `pat` (here `<trkpt`), take what `read` gives there (here the
   * point, when its coordinates parse), resume `|pat|` characters on.
   */
  method ScanPoints(content: string, pat: string, read: nat -> Outcome<seq<Point>>) returns (r: Outcome<seq<Point>>)
    requires |pat| > 0 && pat[0] !in pat[1..]
    ensures r == ReadEach(Occurrences(content, pat, 0), read)
  {
    ghost var spec := ReadEach(Occurrences(content, pat, 0), read);
    var points: seq<Point> := [];
    var searchStart: nat := 0;
    var found := Find(content[searchStart..], pat);
    ThenEmpty(spec);
    while found.Some?
      invariant searchStart <= |content|
      invariant found == Find(content[searchStart..], pat)
      invariant spec == Then(Value(points), ReadEach(Occurrences(content, pat, searchStart), read))
      decreases |content| - searchStart
    {
      var absPos := searchStart + found.value;
      ScanStep(content, pat, searchStart, absPos, read, spec, points);
      var step := read(absPos);
      if step.Panicked? {
        return Panicked;
      }
      points := points + step.value;
      searchStart := absPos + |pat|;
      found := Find(content[searchStart..], pat);
    }
    ScanDone(content, pat, searchStart, read, spec, points);
    r := Value(points);
  }

  /** Both coordinates of the point at `pos` parse, so the point is kept. */
  predicate HasCoordinates(content: string, pos: nat, parse: FloatParser)
    requires pos <= |content|
  {
    ExtractAttr(content[pos..], "lat", parse).Some? && ExtractAttr(content[pos..], "lon", parse).Some?
  }

  /** `p` is the point read at `pos`: its coordinates and its time, or the fallback time, or 0. */
  predicate PointFits(content: string, pos: nat, p: Point, fallback: Option<int>, parse: FloatParser)
    requires pos <= |content|
  {
    ExtractAttr(content[pos..], "lat", parse) == Some(p.lat)
    && ExtractAttr(content[pos..], "lon", parse) == Some(p.lon)
    && ExtractTimeFromTrkpt(content, pos).Value?
    && p.time == ExtractTimeFromTrkpt(content, pos).value.Or(fallback).GetOr(0)
  }

  /** The positions among `positions` that `keep` accepts, in order. */
  function Kept(positions: seq<nat>, keep: nat -> bool): (r: seq<nat>)
    ensures |r| <= |positions|
    ensures forall i :: 0 <= i < |r| ==> keep(r[i]) && r[i] in positions
  {
    if positions == [] then []
    else
      var rest := Kept(positions[1..], keep);
      if keep(positions[0]) then [positions[0]] + rest else rest
  }

  /**
   * What one read gives: nothing when the position is not kept; otherwise
   * one point that `fits`, or a panic exactly when `panics`.
   */
  predicate Shaped(o: Outcome<seq<Point>>, kept: bool, fits: Point -> bool, panics: bool) {
    && (o.Panicked? <==> kept && panics)
    && (o.Value? && kept ==> |o.value| == 1 && fits(o.value[0]))
    && (!kept ==> o == Value([]))
  }

  /**
   * Reads of that shape at a run of positions give one fitting point per
   * kept position, in order, and panic exactly when a kept position panics.
   */
  lemma {:induction false} ReadEachKept(positions: seq<nat>, read: nat -> Outcome<seq<Point>>, keep: nat -> bool,
                                        fits: nat -> Point -> bool, panics: nat -> bool)
    requires forall i :: 0 <= i < |positions| ==>
      Shaped(read(positions[i]), keep(positions[i]), fits(positions[i]), panics(positions[i]))
    ensures var o := ReadEach(positions, read);
            var kept := Kept(positions, keep);
      && (o.Value? ==> |o.value| == |kept| && forall i :: 0 <= i < |kept| ==> fits(kept[i])(o.value[i]))
      && (o.Panicked? <==> exists i :: 0 <= i < |kept| && panics(kept[i]))
  {
    if positions != [] {
      var pos := positions[0];
      var rest := positions[1..];
      assert Shaped(read(pos), keep(pos), fits(pos), panics(pos));
      ReadEachKept(rest, read, keep, fits, panics);
      var tail := ReadEach(rest, read);
      var kept := Kept(positions, keep);
      var restKept := Kept(rest, keep);
      assert ReadEach(positions, read) == Then(read(pos), tail);
      if keep(pos) {
        assert kept == [pos] + restKept;
        if read(pos).Panicked? {
          assert panics(kept[0]);
        }
        if read(pos).Value? && tail.Value? {
          var o := read(pos).value + tail.value;
          forall i | 0 <= i < |kept|
            ensures fits(kept[i])(o[i])
          {
            if i > 0 {
              assert kept[i] == restKept[i - 1];
              assert o[i] == tail.value[i - 1];
            }
          }
        }
        if tail.Panicked? {
          var j :| 0 <= j < |restKept| && panics(restKept[j]);
          assert kept[j + 1] == restKept[j];
        }
        forall i | 0 <= i < |kept| && panics(kept[i])
          ensures ReadEach(positions, read).Panicked?
        {
          if i > 0 {
            assert kept[i] == restKept[i - 1];
          }
        }
      } else {
        assert kept == restKept;
        ThenEmpty(tail);
      }
    }
  }

  /** The point at `pos` is kept: both coordinates parse. */
  function KeepsPoint(content: string, parse: FloatParser): nat -> bool {
    (pos: nat) => pos <= |content| && HasCoordinates(content, pos, parse)
  }

  /** `p` is what is read at `pos`. */
  function FitsPoint(content: string, fallback: Option<int>, parse: FloatParser): nat -> Point -> bool {
    (pos: nat) => FitsAt(content, pos, fallback, parse)
  }

  function FitsAt(content: string, pos: nat, fallback: Option<int>, parse: FloatParser): Point -> bool {
    (p: Point) => pos <= |content| && PointFits(content, pos, p, fallback, parse)
  }

  /** The time of the point at `pos` panics. */
  function TimePanics(content: string): nat -> bool {
    (pos: nat) => pos <= |content| && ExtractTimeFromTrkpt(content, pos).Panicked?
  }

  /** One position: a kept point fits, a skipped one reads nothing, and only a kept one can panic. */
  lemma PointAtShape(content: string, pos: nat, fallback: Option<int>, parse: FloatParser)
    requires pos <= |content|
    ensures Shaped(PointReader(content, fallback, parse)(pos), KeepsPoint(content, parse)(pos),
                   FitsAt(content, pos, fallback, parse), TimePanics(content)(pos))
  {
  }

  /**
   * `extract_all_points_with_time_from_gpx` returns one point per `<trkpt`
   * whose `lat` and `lon` parse, in document order, each timed by its own
   * `<time>`, else the `<metadata>` time, else 0; it panics exactly when
   * the `<metadata>` time panics or a kept point's time panics.
   */
  lemma AllPointsDescribed(content: string, parse: FloatParser)
    ensures MetadataTime(content).Panicked? ==> AllPoints(content, parse).Panicked?
    ensures MetadataTime(content).Value? ==>
      var o := AllPoints(content, parse);
      var fallback := MetadataTime(content).value;
      var kept := Kept(TrkptPositions(content), KeepsPoint(content, parse));
      && (o.Value? ==> |o.value| == |kept| && forall i :: 0 <= i < |kept| ==> FitsPoint(content, fallback, parse)(kept[i])(o.value[i]))
      && (o.Panicked? <==> exists i :: 0 <= i < |kept| && TimePanics(content)(kept[i]))
  {
    if MetadataTime(content).Value? {
      var fallback := MetadataTime(content).value;
      var positions := TrkptPositions(content);
      TrkptPositionsInText(content);
      ReaderShaped(content, positions, fallback, parse);
      ReadEachKept(positions, PointReader(content, fallback, parse), KeepsPoint(content, parse),
                   FitsPoint(content, fallback, parse), TimePanics(content));
    }
  }

  lemma TrkptPositionsInText(content: string)
    ensures forall i :: 0 <= i < |TrkptPositions(content)| ==> TrkptPositions(content)[i] <= |content|
  {
    OccurrencesSound(content, "<trkpt", 0);
  }

  /** The point reader has the shape `ReadEachKept` asks for at every position of the text. */
  lemma ReaderShaped(content: string, positions: seq<nat>, fallback: Option<int>, parse: FloatParser)
    requires forall i :: 0 <= i < |positions| ==> positions[i] <= |content|
    ensures forall i :: 0 <= i < |positions| ==>
      Shaped(PointReader(content, fallback, parse)(positions[i]), KeepsPoint(content, parse)(positions[i]),
             FitsPoint(content, fallback, parse)(positions[i]), TimePanics(content)(positions[i]))
  {
    forall i | 0 <= i < |positions|
      ensures Shaped(PointReader(content, fallback, parse)(positions[i]), KeepsPoint(content, parse)(positions[i]),
                     FitsPoint(content, fallback, parse)(positions[i]), TimePanics(content)(positions[i]))
    {
      PointAtShape(content, positions[i], fallback, parse);
    }
  }

  /** `extract_track_name`: the text of the first `<name>` element. */
  function ExtractTrackName(content: string): Option<string> {
    Element(content, "<name>", "</name>")
  }

  /**
   * `extract_activity_id`: the file name without `.gpx`, and without an
   * `activity_` prefix when it has one; None for any other extension.
   */
  function ExtractActivityId(filename: string): (r: Option<string>)
    ensures r.Some? <==> |filename| >= 4 && filename[|filename| - 4..] == ".gpx"
  {
    match StripSuffix(filename, ".gpx")
    case None => None
    case Some(name) =>
      match StripPrefix(name, "activity_")
      case Some(id) => Some(id)
      case None => Some(name)
  }

  /** The first `open` ... `close` element of a text is read back whole. */
  lemma ElementReads(a: string, open: string, v: string, close: string, b: string)
    requires |open| > 0 && open[0] !in open[1..] && !Contains(a, open)
    requires |close| > 0 && close[0] !in close[1..] && !Contains(v, close)
    ensures Element(a + open + v + close + b, open, close) == Some(v)
  {
    FindPlaced(a, open, v + close + b);
    assert a + open + v + close + b == a + open + (v + close + b);
    var rest := (a + open + v + close + b)[|a| + |open|..];
    assert rest == v + close + b;
    FindPlaced(v, close, b);
    assert rest[..|v|] == v;
  }

  /** `extract_track_name` reads back the name of a document whose first `<name>` holds it. */
  lemma TrackNameReads(a: string, name: string, b: string)
    requires !Contains(a, "<name>") && !Contains(name, "</name>")
    ensures ExtractTrackName(a + "<name>" + name + "</name>" + b) == Some(name)
  {
    ElementReads(a, "<name>", name, "</name>", b);
  }

  /** An attribute written as `attr="v"` reads as the parse of `v`. */
  lemma AttrReads(a: string, attr: string, v: string, b: string, parse: FloatParser)
    requires |attr| > 0 && attr[0] !in attr[1..] + "=\""
    requires !Contains(a, attr + "=\"") && '"' !in v
    ensures ExtractAttr(a + attr + "=\"" + v + "\"" + b, attr, parse) == parse(v)
  {
    var pattern := attr + "=\"";
    assert pattern[1..] == attr[1..] + "=\"";
    var tail := v + ['"'] + b;
    var s := a + pattern + tail;
    assert s == a + attr + "=\"" + v + "\"" + b;
    PatternRead(a, pattern, tail);
    FindCharPlaced(v, '"', b);
    assert tail[..|v|] == v;
  }

  /** The text after a first occurrence placed after `a`. */
  lemma PatternRead(a: string, pat: string, tail: string)
    requires |pat| > 0 && pat[0] !in pat[1..] && !Contains(a, pat)
    ensures Find(a + pat + tail, pat) == Some(|a|)
    ensures (a + pat + tail)[|a| + |pat|..] == tail
  {
    FindPlaced(a, pat, tail);
  }

  /** `extract_activity_id` gives the id of an `activity_<id>.gpx` name. */
  lemma ActivityIdOfExport(id: string)
    ensures ExtractActivityId("activity_" + id + ".gpx") == Some(id)
  {
    var f := "activity_" + id + ".gpx";
    assert f[|f| - 4..] == ".gpx";
    assert f[..|f| - 4] == "activity_" + id;
    assert ("activity_" + id)[..9] == "activity_";
  }

  /** Any other `.gpx` name is its own id. */
  lemma ActivityIdOfOtherName(name: string)
    requires !(|name| >= 9 && name[..9] == "activity_")
    ensures ExtractActivityId(name + ".gpx") == Some(name)
  {
    var f := name + ".gpx";
    assert f[|f| - 4..] == ".gpx";
    assert f[..|f| - 4] == name;
  }
}
