/**
 * The text-producing helpers of src/strava.rs: `xml_escape`, the OAuth
 * authorisation URL, and `build_gpx_xml`, which writes an activity's
 * streams out as a GPX document.
 */
module Strava {
  import opened Wrappers
  import opened Numbers
  import opened Text

  // ---------------------------------------------------------------------
  // xml_escape

  /** The string made of `f(c)` for each character `c` of `s`, in order. */
  function Expand(s: string, f: char -> string): string {
    if s == [] then [] else f(s[0]) + Expand(s[1..], f)
  }

  /** Each character escaped on its own: the three specials become entities. */
  function EscapeChar(c: char): string {
    if c == '&' then "&amp;" else if c == '<' then "&lt;" else if c == '>' then "&gt;" else [c]
  }

  /** The text after the first replacement, per character. */
  function EscapeAmp(c: char): string {
    if c == '&' then "&amp;" else [c]
  }

  /** The text after the second replacement, per character. */
  function EscapeAmpLt(c: char): string {
    if c == '&' then "&amp;" else if c == '<' then "&lt;" else [c]
  }

  /** The escaped text once `&lt;` has been undone, per character. */
  function EscapeAmpGt(c: char): string {
    if c == '&' then "&amp;" else if c == '>' then "&gt;" else [c]
  }

  function Keep(c: char): string {
    [c]
  }

  /**
   * `xml_escape`: `&` is replaced first, then `<`, then `>`, so the
   * ampersands the later replacements introduce are not escaped again.
   */
  function XmlEscape(s: string): string {
    ReplaceChar(ReplaceChar(ReplaceChar(s, '&', "&amp;"), '<', "&lt;"), '>', "&gt;")
  }

  /** Undoing the escape in the order `&lt;`, `&gt;`, then `&amp;`. */
  function Unescape(t: string): string {
    ReplaceStr(ReplaceStr(ReplaceStr(t, "&lt;", "<"), "&gt;", ">"), "&amp;", "&")
  }

  /** The number of times `c` occurs in `s`. */
  function CountChar(s: string, c: char): (r: nat)
    ensures r == 0 <==> c !in s
  {
    if s == [] then 0 else (if s[0] == c then 1 else 0) + CountChar(s[1..], c)
  }

  lemma {:induction false} KeepExpand(s: string)
    ensures Expand(s, Keep) == s
  {
    if s != [] {
      KeepExpand(s[1..]);
    }
  }

  lemma {:induction false} ReplaceCharAbsent(s: string, c: char, rep: string)
    requires c !in s
    ensures ReplaceChar(s, c, rep) == s
  {
    if s != [] {
      ReplaceCharAbsent(s[1..], c, rep);
    }
  }

  /** A character replacement applied to an expansion replaces inside each piece. */
  lemma {:induction false} ReplaceCharExpand(s: string, f: char -> string, g: char -> string, c: char, rep: string)
    requires forall x :: ReplaceChar(f(x), c, rep) == g(x)
    ensures ReplaceChar(Expand(s, f), c, rep) == Expand(s, g)
  {
    if s != [] {
      ReplaceCharAppend(f(s[0]), Expand(s[1..], f), c, rep);
      ReplaceCharExpand(s[1..], f, g, c, rep);
    }
  }

  /** The three chained replacements escape each character on its own. */
  lemma XmlEscapeExpands(s: string)
    ensures XmlEscape(s) == Expand(s, EscapeChar)
  {
    KeepExpand(s);
    forall x
      ensures ReplaceChar(Keep(x), '&', "&amp;") == EscapeAmp(x)
    {
      assert Keep(x)[1..] == [];
    }
    ReplaceCharExpand(s, Keep, EscapeAmp, '&', "&amp;");
    forall x
      ensures ReplaceChar(EscapeAmp(x), '<', "&lt;") == EscapeAmpLt(x)
    {
      if x == '&' {
        ReplaceCharAbsent("&amp;", '<', "&lt;");
      } else {
        assert EscapeAmp(x)[1..] == [];
      }
    }
    ReplaceCharExpand(s, EscapeAmp, EscapeAmpLt, '<', "&lt;");
    forall x
      ensures ReplaceChar(EscapeAmpLt(x), '>', "&gt;") == EscapeChar(x)
    {
      if x == '&' {
        ReplaceCharAbsent("&amp;", '>', "&gt;");
      } else if x == '<' {
        ReplaceCharAbsent("&lt;", '>', "&gt;");
      } else {
        assert EscapeAmpLt(x)[1..] == [];
      }
    }
    ReplaceCharExpand(s, EscapeAmpLt, EscapeChar, '>', "&gt;");
  }

  /**
   * An entity whose second character differs from the pattern's, and which
   * holds the pattern's first character only in front, passes through.
   */
  lemma EntityPasses(e: string, b: string, pat: string, rep: string)
    requires 2 <= |pat| <= |e| && e[1] != pat[1] && pat[0] !in e[1..]
    ensures ReplaceStr(e + b, pat, rep) == e + ReplaceStr(b, pat, rep)
  {
    var s := e + b;
    assert s[..|pat|] != pat by {
      assert s[..|pat|][1] == e[1];
    }
    assert s[1..] == e[1..] + b;
    assert ReplaceStr(s, pat, rep) == [e[0]] + ReplaceStr(e[1..] + b, pat, rep);
    ReplaceStrSkip(e[1..], b, pat, rep);
    assert e == [e[0]] + e[1..];
  }

  /** A string replacement applied to an expansion replaces inside each piece. */
  lemma {:induction false} ReplaceStrExpand(s: string, f: char -> string, g: char -> string, pat: string, rep: string)
    requires |pat| > 0
    requires forall x, b :: ReplaceStr(f(x) + b, pat, rep) == g(x) + ReplaceStr(b, pat, rep)
    ensures ReplaceStr(Expand(s, f), pat, rep) == Expand(s, g)
  {
    if s == [] {
      ReplaceStrShort([], pat, rep);
    } else {
      ReplaceStrExpand(s[1..], f, g, pat, rep);
    }
  }

  /** How one escaped character fares when `&lt;` is undone. */
  lemma UndoLt(x: char, b: string)
    ensures ReplaceStr(EscapeChar(x) + b, "&lt;", "<") == EscapeAmpGt(x) + ReplaceStr(b, "&lt;", "<")
  {
    if x == '&' {
      EntityPasses("&amp;", b, "&lt;", "<");
    } else if x == '<' {
      ReplaceStrFront(b, "&lt;", "<");
    } else if x == '>' {
      EntityPasses("&gt;", b, "&lt;", "<");
    } else {
      ReplaceStrSkip([x], b, "&lt;", "<");
    }
  }

  /** How one character fares when `&gt;` is undone. */
  lemma UndoGt(x: char, b: string)
    ensures ReplaceStr(EscapeAmpGt(x) + b, "&gt;", ">") == EscapeAmp(x) + ReplaceStr(b, "&gt;", ">")
  {
    if x == '&' {
      EntityPasses("&amp;", b, "&gt;", ">");
    } else if x == '>' {
      ReplaceStrFront(b, "&gt;", ">");
    } else {
      ReplaceStrSkip([x], b, "&gt;", ">");
    }
  }

  /** How one character fares when `&amp;` is undone. */
  lemma UndoAmp(x: char, b: string)
    ensures ReplaceStr(EscapeAmp(x) + b, "&amp;", "&") == Keep(x) + ReplaceStr(b, "&amp;", "&")
  {
    if x == '&' {
      ReplaceStrFront(b, "&amp;", "&");
    } else {
      ReplaceStrSkip([x], b, "&amp;", "&");
    }
  }

  /** Unescaping recovers the input of `xml_escape`: `&` was escaped first. */
  lemma UnescapeEscape(s: string)
    ensures Unescape(XmlEscape(s)) == s
  {
    XmlEscapeExpands(s);
    forall x, b
      ensures ReplaceStr(EscapeChar(x) + b, "&lt;", "<") == EscapeAmpGt(x) + ReplaceStr(b, "&lt;", "<")
    {
      UndoLt(x, b);
    }
    ReplaceStrExpand(s, EscapeChar, EscapeAmpGt, "&lt;", "<");
    forall x, b
      ensures ReplaceStr(EscapeAmpGt(x) + b, "&gt;", ">") == EscapeAmp(x) + ReplaceStr(b, "&gt;", ">")
    {
      UndoGt(x, b);
    }
    ReplaceStrExpand(s, EscapeAmpGt, EscapeAmp, "&gt;", ">");
    forall x, b
      ensures ReplaceStr(EscapeAmp(x) + b, "&amp;", "&") == Keep(x) + ReplaceStr(b, "&amp;", "&")
    {
      UndoAmp(x, b);
    }
    ReplaceStrExpand(s, EscapeAmp, Keep, "&amp;", "&");
    KeepExpand(s);
  }

  /** A character that no piece holds is not in the expansion. */
  lemma {:induction false} ExpandAvoids(s: string, f: char -> string, c: char)
    requires forall x :: c !in f(x)
    ensures c !in Expand(s, f)
  {
    if s != [] {
      ExpandAvoids(s[1..], f, c);
    }
  }

  /** The output of `xml_escape` holds no `<` and no `>`. */
  lemma EscapedHasNoAngles(s: string)
    ensures '<' !in XmlEscape(s) && '>' !in XmlEscape(s)
  {
    XmlEscapeExpands(s);
    ExpandAvoids(s, EscapeChar, '<');
    ExpandAvoids(s, EscapeChar, '>');
  }

  /** `t[i..]` starts one of the three entities. */
  predicate EntityAt(t: string, i: nat) {
    IsAt(t, "&amp;", i) || IsAt(t, "&lt;", i) || IsAt(t, "&gt;", i)
  }

  /** Every `&` of `t` starts an entity. */
  predicate AmpsStartEntities(t: string) {
    forall i :: 0 <= i < |t| && t[i] == '&' ==> EntityAt(t, i)
  }

  lemma IsAtShift(e: string, t: string, pat: string, i: nat)
    requires IsAt(t, pat, i)
    ensures IsAt(e + t, pat, |e| + i)
  {
    assert (e + t)[|e| + i..|e| + i + |pat|] == t[i..i + |pat|];
  }

  lemma {:induction false} ExpandEntities(s: string)
    ensures AmpsStartEntities(Expand(s, EscapeChar))
  {
    if s != [] {
      ExpandEntities(s[1..]);
      var e := EscapeChar(s[0]);
      var t := Expand(s[1..], EscapeChar);
      forall i | 0 <= i < |e + t| && (e + t)[i] == '&'
        ensures EntityAt(e + t, i)
      {
        if i < |e| {
          assert i == 0 && (e + t)[..|e|] == e;
        } else {
          assert t[i - |e|] == '&';
          var j: nat := i - |e|;
          if IsAt(t, "&amp;", j) {
            IsAtShift(e, t, "&amp;", j);
          } else if IsAt(t, "&lt;", j) {
            IsAtShift(e, t, "&lt;", j);
          } else {
            IsAtShift(e, t, "&gt;", j);
          }
        }
      }
    }
  }

  /** Every `&` in the output of `xml_escape` starts `&amp;`, `&lt;` or `&gt;`. */
  lemma EscapedAmpsStartEntities(s: string)
    ensures AmpsStartEntities(XmlEscape(s))
  {
    XmlEscapeExpands(s);
    ExpandEntities(s);
  }

  /** Each `&` adds four characters, each `<` and `>` three. */
  lemma {:induction false} EscapedLength(s: string)
    ensures |XmlEscape(s)| == |s| + 4 * CountChar(s, '&') + 3 * CountChar(s, '<') + 3 * CountChar(s, '>')
  {
    XmlEscapeExpands(s);
    ExpandLength(s);
  }

  lemma {:induction false} ExpandLength(s: string)
    ensures |Expand(s, EscapeChar)| == |s| + 4 * CountChar(s, '&') + 3 * CountChar(s, '<') + 3 * CountChar(s, '>')
  {
    if s != [] {
      ExpandLength(s[1..]);
    }
  }

  /** `xml_escape` changes exactly the strings holding `&`, `<` or `>`. */
  lemma EscapeIdentity(s: string)
    ensures XmlEscape(s) == s <==> '&' !in s && '<' !in s && '>' !in s
  {
    EscapedLength(s);
    if '&' !in s && '<' !in s && '>' !in s {
      XmlEscapeExpands(s);
      ExpandAgrees(s);
      KeepExpand(s);
    }
  }

  lemma {:induction false} ExpandAgrees(s: string)
    requires '&' !in s && '<' !in s && '>' !in s
    ensures Expand(s, EscapeChar) == Expand(s, Keep)
  {
    if s != [] {
      ExpandAgrees(s[1..]);
    }
  }

  // ---------------------------------------------------------------------
  // get_authorize_url

  const AuthorizeEndpoint: string := "https://www.strava.com/oauth/authorize"

  /** The scopes the authorisation asks for. */
  const Scope: string := "read,activity:read,activity:read_all"

  /** One `key=value` pair of a query string. */
  function Param(key: string, value: string): string {
    key + "=" + value
  }

  /** The query parameters, in the order the URL lists them. */
  function AuthorizeParams(clientId: string, redirectUri: string): seq<string> {
    [Param("client_id", clientId), Param("response_type", "code"), Param("redirect_uri", redirectUri),
     Param("approval_prompt", "auto"), Param("scope", Scope)]
  }

  /**
   * `get_authorize_url`: the endpoint, `?`, and the parameters joined by
   * `&`. The client id and the redirect URI are inserted as they are,
   * without percent-encoding.
   */
  function AuthorizeUrl(clientId: string, redirectUri: string): string {
    AuthorizeEndpoint + "?" + Join(AuthorizeParams(clientId, redirectUri), '&')
  }

  /** Joining pieces that hold no separator and splitting again gives the pieces back. */
  lemma {:induction false} SplitOfJoin(pieces: seq<string>, c: char)
    requires |pieces| > 0 && forall i :: 0 <= i < |pieces| ==> c !in pieces[i]
    ensures Split(Join(pieces, c), c) == pieces
  {
    if |pieces| == 1 {
      SplitWhole(pieces[0], c);
    } else {
      SplitOfJoin(pieces[1..], c);
      SplitPlaced(pieces[0], c, Join(pieces[1..], c));
    }
  }

  /** A pair holds a character other than `=` only when its key or its value does. */
  lemma ParamAvoids(key: string, value: string, c: char)
    requires c != '=' && c !in key && c !in value
    ensures c !in Param(key, value)
  {
  }

  /** None of the parameters holds an `&` when the inserted values hold none. */
  lemma ParamsAvoidAmp(clientId: string, redirectUri: string)
    requires '&' !in clientId && '&' !in redirectUri
    ensures forall i :: 0 <= i < 5 ==> '&' !in AuthorizeParams(clientId, redirectUri)[i]
  {
    ParamAvoids("client_id", clientId, '&');
    ParamAvoids("response_type", "code", '&');
    ParamAvoids("redirect_uri", redirectUri, '&');
    ParamAvoids("approval_prompt", "auto", '&');
    ParamAvoids("scope", Scope, '&');
  }

  /** The query begins right after the endpoint. */
  lemma QueryFollowsEndpoint(clientId: string, redirectUri: string)
    ensures var url := AuthorizeUrl(clientId, redirectUri);
      && FindChar(url, '?') == Some(|AuthorizeEndpoint|)
      && url[|AuthorizeEndpoint| + 1..] == Join(AuthorizeParams(clientId, redirectUri), '&')
  {
    var query := Join(AuthorizeParams(clientId, redirectUri), '&');
    assert '?' !in AuthorizeEndpoint;
    FindCharPlaced(AuthorizeEndpoint, '?', query);
    assert AuthorizeUrl(clientId, redirectUri) == AuthorizeEndpoint + ['?'] + query;
  }

  /**
   * The query of the authorisation URL starts at its first `?` and splits
   * on `&` into exactly the five parameters, with the client id and the
   * redirect URI verbatim, as long as neither holds an `&`.
   */
  lemma AuthorizeUrlParams(clientId: string, redirectUri: string)
    requires '&' !in clientId && '&' !in redirectUri
    ensures var url := AuthorizeUrl(clientId, redirectUri);
      && FindChar(url, '?') == Some(|AuthorizeEndpoint|)
      && Split(url[|AuthorizeEndpoint| + 1..], '&') == AuthorizeParams(clientId, redirectUri)
  {
    QueryFollowsEndpoint(clientId, redirectUri);
    ParamsAvoidAmp(clientId, redirectUri);
    SplitOfJoin(AuthorizeParams(clientId, redirectUri), '&');
  }

  // ---------------------------------------------------------------------
  // build_gpx_xml

  /** `StreamSet`: the streams of an activity, each of which may be missing. */
  datatype StreamSet = StreamSet(latlng: Option<seq<(real, real)>>, time: Option<seq<int>>, altitude: Option<seq<real>>)

  /**
   * The library calls `build_gpx_xml` relies on, which the model leaves
   * opaque: `{:.7}` for coordinates, `{:.2}` for elevations, RFC 3339 for
   * an instant in seconds since the epoch, and the parse of the start date.
   */
  datatype Formats = Formats(coord: real -> string, elevation: real -> string,
                             rfc3339: int -> string, parseDate: string -> Option<int>)

  /** One `push_str` of `build_gpx_xml`; each ends with a newline. */
  datatype Line =
    | XmlDeclaration
    | GpxOpen
    | MetadataOpen
    | MetadataTime(date: string)
    | MetadataClose
    | TrackOpen(name: string)
    | TrkptOpen(lat: string, lon: string)
    | Elevation(ele: string)
    | PointTime(instant: string)
    | TrkptClose
    | TrackClose

  /** `name="value"`, one attribute of an element. */
  function Attribute(name: string, value: string): string {
    name + "=\"" + value + "\""
  }

  /** The attributes of the `<gpx>` root element, in order, separated by spaces. */
  const GpxAttributes: seq<string> := [
    Attribute("version", "1.1"),
    Attribute("creator", "rust-strava-example"),
    Attribute("xmlns", "http://www.topografix.com/GPX/1/1"),
    Attribute("xmlns:xsi", "http://www.w3.org/2001/XMLSchema-instance"),
    Attribute("xsi:schemaLocation", "http://www.topografix.com/GPX/1/1 http://www.topografix.com/GPX/1/1/gpx.xsd")
  ]

  /** The text each push appends. */
  function Render(l: Line): string {
    match l
    case XmlDeclaration => "<?xml version=\"1.0\" encoding=\"UTF-8\"?>\n"
    case GpxOpen => "<gpx " + Join(GpxAttributes, ' ') + ">\n"
    case MetadataOpen => "  <metadata>\n"
    case MetadataTime(date) => "    <time>" + date + "</time>\n"
    case MetadataClose => "  </metadata>\n"
    case TrackOpen(name) => "  <trk>\n    <name>" + name + "</name>\n    <trkseg>\n"
    case TrkptOpen(lat, lon) => "      <trkpt lat=\"" + lat + "\" lon=\"" + lon + "\">\n"
    case Elevation(ele) => "        <ele>" + ele + "</ele>\n"
    case PointTime(instant) => "        <time>" + instant + "</time>\n"
    case TrkptClose => "      </trkpt>\n"
    case TrackClose => "    </trkseg>\n  </trk>\n</gpx>\n"
  }

  /** The text of each item rendered, one after another. */
  function Concat<T>(items: seq<T>, render: T -> string): string {
    if items == [] then [] else Concat(items[..|items| - 1], render) + render(items[|items| - 1])
  }

  /** The document the pushes of `lines` produce, in order. */
  function Flatten(lines: seq<Line>): string {
    Concat(lines, Render)
  }

  /** `start_date.and_then(|d| d.parse().ok())`. */
  function StartTime(startDate: Option<string>, fmt: Formats): Option<int> {
    match startDate
    case None => None
    case Some(d) => fmt.parseDate(d)
  }

  /** `latlng.map(|v| v.data.len()).unwrap_or(0)`. */
  function PointCount(streams: StreamSet): nat {
    match streams.latlng
    case None => 0
    case Some(data) => |data|
  }

  /** `data.get(i)` on a stream that may be missing. */
  function At<T>(stream: Option<seq<T>>, i: nat): (r: Option<T>)
    ensures r.Some? <==> stream.Some? && i < |stream.value|
    ensures r.Some? ==> r.value == stream.value[i]
  {
    match stream
    case None => None
    case Some(data) => if i < |data| then Some(data[i]) else None
  }

  /** The elevation push of point `i`, when the altitude stream has one. */
  function ElevationLines(streams: StreamSet, fmt: Formats, i: nat): seq<Line> {
    match At(streams.altitude, i)
    case None => []
    case Some(e) => [Elevation(fmt.elevation(e))]
  }

  /** The time push of point `i`, when there is a start time and the time stream has an offset. */
  function TimeLines(streams: StreamSet, start: Option<int>, fmt: Formats, i: nat): seq<Line> {
    if start.Some? && At(streams.time, i).Some? then [PointTime(fmt.rfc3339(start.value + At(streams.time, i).value))] else []
  }

  /** The pushes for point `i`: its coordinates, its elevation and its time when there are. */
  function PointLines(streams: StreamSet, start: Option<int>, fmt: Formats, i: nat): seq<Line> {
    var (lat, lon) := At(streams.latlng, i).GetOr((0.0, 0.0));
    [TrkptOpen(fmt.coord(lat), fmt.coord(lon))] + ElevationLines(streams, fmt, i) + TimeLines(streams, start, fmt, i) + [TrkptClose]
  }

  /** The lines of chunks `0` to `k - 1`, one after another. */
  function Chunks(chunk: nat -> seq<Line>, k: nat): seq<Line> {
    if k == 0 then [] else Chunks(chunk, k - 1) + chunk(k - 1)
  }

  /** The pushes of each point, by index. */
  function PointChunk(streams: StreamSet, start: Option<int>, fmt: Formats): nat -> seq<Line> {
    (i: nat) => PointLines(streams, start, fmt, i)
  }

  /** The pushes for the points before `k`. */
  function PointsBefore(streams: StreamSet, start: Option<int>, fmt: Formats, k: nat): seq<Line> {
    Chunks(PointChunk(streams, start, fmt), k)
  }

  /** The pushes before the first point: the prologue, the metadata when there is a start date, the track head. */
  function HeadLines(name: string, startDate: Option<string>): seq<Line> {
    [XmlDeclaration, GpxOpen]
    + (match startDate case None => [] case Some(d) => [MetadataOpen, MetadataTime(XmlEscape(d)), MetadataClose])
    + [TrackOpen(XmlEscape(name))]
  }

  /** Every push of `build_gpx_xml`, in order. */
  function GpxLines(name: string, startDate: Option<string>, streams: StreamSet, fmt: Formats): seq<Line> {
    HeadLines(name, startDate) + PointsBefore(streams, StartTime(startDate, fmt), fmt, PointCount(streams)) + [TrackClose]
  }

  lemma {:induction false} ConcatAppend<T>(a: seq<T>, b: seq<T>, render: T -> string)
    decreases |b|
    ensures Concat(a + b, render) == Concat(a, render) + Concat(b, render)
  {
    if b == [] {
      assert a + b == a;
    } else {
      var init := b[..|b| - 1];
      ConcatAppend(a, init, render);
      assert (a + b)[..|a + b| - 1] == a + init;
    }
  }

  lemma FlattenAppend(a: seq<Line>, b: seq<Line>)
    ensures Flatten(a + b) == Flatten(a) + Flatten(b)
  {
    ConcatAppend(a, b, Render);
  }

  lemma FlattenOne(l: Line)
    ensures Flatten([l]) == Render(l)
  {
    assert [l][..0] == [];
    assert Concat([l][..0], Render) == [];
  }

  /** One more push appends its text. */
  lemma Pushed(lines: seq<Line>, l: Line)
    ensures Flatten(lines + [l]) == Flatten(lines) + Render(l)
  {
    FlattenAppend(lines, [l]);
    FlattenOne(l);
  }

  /** `xml.push_str(..)` with the text of one push, after the pushes `done`. */
  method Push(xml: string, ghost done: seq<Line>, l: Line) returns (xml': string)
    requires xml == Flatten(done)
    ensures xml' == Flatten(done + [l])
  {
    xml' := xml + Render(l);
    Pushed(done, l);
  }

  /** The pushes before the first point, in the order they are made. */
  lemma HeadShape(name: string, startDate: Option<string>)
    ensures HeadLines(name, startDate)
         == (match startDate
             case None => [] + [XmlDeclaration] + [GpxOpen] + [TrackOpen(XmlEscape(name))]
             case Some(d) => [] + [XmlDeclaration] + [GpxOpen] + [MetadataOpen] + [MetadataTime(XmlEscape(d))] + [MetadataClose] + [TrackOpen(XmlEscape(name))])
  {
  }

  /** The pushes before the first point. */
  method WriteHead(name: string, startDate: Option<string>) returns (xml: string)
    ensures xml == Flatten(HeadLines(name, startDate))
  {
    ghost var lines: seq<Line> := [];
    xml := "";
    xml := Push(xml, lines, XmlDeclaration);
    lines := lines + [XmlDeclaration];
    xml := Push(xml, lines, GpxOpen);
    lines := lines + [GpxOpen];
    if startDate.Some? {
      var date := XmlEscape(startDate.value);
      xml := Push(xml, lines, MetadataOpen);
      lines := lines + [MetadataOpen];
      xml := Push(xml, lines, MetadataTime(date));
      lines := lines + [MetadataTime(date)];
      xml := Push(xml, lines, MetadataClose);
      lines := lines + [MetadataClose];
    }
    var track := TrackOpen(XmlEscape(name));
    xml := Push(xml, lines, track);
    lines := lines + [track];
    HeadShape(name, startDate);
  }

  /** The pushes of one point, spelt out in the order they are made. */
  lemma PointShape(done: seq<Line>, streams: StreamSet, start: Option<int>, fmt: Formats, i: nat, open: Line)
    requires var (lat, lon) := At(streams.latlng, i).GetOr((0.0, 0.0)); open == TrkptOpen(fmt.coord(lat), fmt.coord(lon))
    ensures done + [open] + ElevationLines(streams, fmt, i) + TimeLines(streams, start, fmt, i) + [TrkptClose]
         == done + PointLines(streams, start, fmt, i)
  {
  }

  /** The elevation push of point `i`, when the altitude stream has one. */
  method PushElevation(xml: string, ghost done: seq<Line>, streams: StreamSet, fmt: Formats, i: nat) returns (xml': string)
    requires xml == Flatten(done)
    ensures xml' == Flatten(done + ElevationLines(streams, fmt, i))
  {
    var ele := At(streams.altitude, i);
    if ele.Some? {
      xml' := Push(xml, done, Elevation(fmt.elevation(ele.value)));
    } else {
      xml' := xml;
      assert done + [] == done;
    }
  }

  /** The time push of point `i`, when there is a start time and the time stream has an offset. */
  method PushTime(xml: string, ghost done: seq<Line>, streams: StreamSet, startTime: Option<int>, fmt: Formats, i: nat)
    returns (xml': string)
    requires xml == Flatten(done)
    ensures xml' == Flatten(done + TimeLines(streams, startTime, fmt, i))
  {
    var pointTime: Option<int> :=
      if startTime.Some? && At(streams.time, i).Some? then Some(startTime.value + At(streams.time, i).value) else None;
    if pointTime.Some? {
      xml' := Push(xml, done, PointTime(fmt.rfc3339(pointTime.value)));
    } else {
      xml' := xml;
      assert done + [] == done;
    }
  }

  /** The pushes of point `i`, one round of the loop, after the pushes `done`. */
  method WritePoint(xml: string, ghost done: seq<Line>, streams: StreamSet, startTime: Option<int>, fmt: Formats, i: nat)
    returns (xml': string)
    requires xml == Flatten(done)
    ensures xml' == Flatten(done + PointLines(streams, startTime, fmt, i))
  {
    var (lat, lon) := At(streams.latlng, i).GetOr((0.0, 0.0));
    var open := TrkptOpen(fmt.coord(lat), fmt.coord(lon));
    xml' := Push(xml, done, open);
    xml' := PushElevation(xml', done + [open], streams, fmt, i);
    xml' := PushTime(xml', done + [open] + ElevationLines(streams, fmt, i), streams, startTime, fmt, i);
    xml' := Push(xml', done + [open] + ElevationLines(streams, fmt, i) + TimeLines(streams, startTime, fmt, i), TrkptClose);
    PointShape(done, streams, startTime, fmt, i, open);
  }

  /** After the pushes `head`, the points before `k`, then point `k`, come the points before `k + 1`. */
  lemma PointsStep(head: seq<Line>, streams: StreamSet, start: Option<int>, fmt: Formats, k: nat)
    ensures head + PointsBefore(streams, start, fmt, k) + PointLines(streams, start, fmt, k)
         == head + PointsBefore(streams, start, fmt, k + 1)
  {
  }

  /**
   * `build_gpx_xml`: the document, built by appending one piece after
   * another to a growing string.
   */
  method BuildGpxXml(name: string, startDate: Option<string>, streams: StreamSet, fmt: Formats) returns (xml: string)
    ensures xml == Flatten(GpxLines(name, startDate, streams, fmt))
  {
    xml := WriteHead(name, startDate);
    ghost var head := HeadLines(name, startDate);
    var startTime := StartTime(startDate, fmt);
    var points := PointCount(streams);
    var i := 0;
    assert head + PointsBefore(streams, startTime, fmt, 0) == head;
    while i < points
      invariant 0 <= i <= points
      invariant xml == Flatten(head + PointsBefore(streams, startTime, fmt, i))
    {
      xml := WritePoint(xml, head + PointsBefore(streams, startTime, fmt, i), streams, startTime, fmt, i);
      PointsStep(head, streams, startTime, fmt, i);
      i := i + 1;
    }
    xml := Push(xml, head + PointsBefore(streams, startTime, fmt, points), TrackClose);
  }

  // ---------------------------------------------------------------------
  // What the document holds

  /** The number of lines of one kind. */
  function Tally(lines: seq<Line>, kind: Line -> bool): nat {
    if lines == [] then 0 else Tally(lines[..|lines| - 1], kind) + (if kind(lines[|lines| - 1]) then 1 else 0)
  }

  predicate IsMetadataOpen(l: Line) { l.MetadataOpen? }
  predicate IsTrkptOpen(l: Line) { l.TrkptOpen? }
  predicate IsTrkptClose(l: Line) { l.TrkptClose? }
  predicate IsElevation(l: Line) { l.Elevation? }
  predicate IsPointTime(l: Line) { l.PointTime? }

  lemma {:induction false} TallyAppend(a: seq<Line>, b: seq<Line>, kind: Line -> bool)
    decreases |b|
    ensures Tally(a + b, kind) == Tally(a, kind) + Tally(b, kind)
  {
    if b == [] {
      assert a + b == a;
    } else {
      TallyAppend(a, b[..|b| - 1], kind);
      assert (a + b)[..|a + b| - 1] == a + b[..|b| - 1];
    }
  }

  /** How many of the streams' entries fall below `k`: all of them up to the stream's length. */
  function Present<T>(stream: Option<seq<T>>, k: nat): nat {
    match stream
    case None => 0
    case Some(data) => Min(k, |data|)
  }

  /** A list of at most one line counts that line, if it is of the kind. */
  lemma TallyUpTo1(ls: seq<Line>, kind: Line -> bool)
    requires |ls| <= 1
    ensures Tally(ls, kind) == if ls != [] && kind(ls[0]) then 1 else 0
  {
    if ls != [] {
      assert ls[..0] == [];
    }
  }

  /** The count of one kind over point `i`, part by part. */
  lemma PointSplit(streams: StreamSet, start: Option<int>, fmt: Formats, i: nat, kind: Line -> bool)
    ensures var ele := ElevationLines(streams, fmt, i);
            var time := TimeLines(streams, start, fmt, i);
      Tally(PointLines(streams, start, fmt, i), kind)
      == (if kind(PointLines(streams, start, fmt, i)[0]) then 1 else 0)
         + Tally(ele, kind) + Tally(time, kind) + (if kind(TrkptClose) then 1 else 0)
  {
    var (lat, lon) := At(streams.latlng, i).GetOr((0.0, 0.0));
    var open := [TrkptOpen(fmt.coord(lat), fmt.coord(lon))];
    var ele := ElevationLines(streams, fmt, i);
    var time := TimeLines(streams, start, fmt, i);
    assert PointLines(streams, start, fmt, i) == open + ele + time + [TrkptClose];
    TallyAppend(open + ele + time, [TrkptClose], kind);
    TallyAppend(open + ele, time, kind);
    TallyAppend(open, ele, kind);
    TallyUpTo1(open, kind);
    TallyUpTo1([TrkptClose], kind);
  }

  /** One point: one opening and one closing tag, an elevation and a time only where there are. */
  lemma PointTally(streams: StreamSet, start: Option<int>, fmt: Formats, i: nat)
    ensures var ls := PointLines(streams, start, fmt, i);
      && Tally(ls, IsMetadataOpen) == 0
      && Tally(ls, IsTrkptOpen) == 1
      && Tally(ls, IsTrkptClose) == 1
      && Tally(ls, IsElevation) == (if At(streams.altitude, i).Some? then 1 else 0)
      && Tally(ls, IsPointTime) == (if start.Some? && At(streams.time, i).Some? then 1 else 0)
  {
    var ele := ElevationLines(streams, fmt, i);
    var time := TimeLines(streams, start, fmt, i);
    assert PointLines(streams, start, fmt, i)[0].TrkptOpen?;
    PointSplit(streams, start, fmt, i, IsMetadataOpen);
    PointSplit(streams, start, fmt, i, IsTrkptOpen);
    PointSplit(streams, start, fmt, i, IsTrkptClose);
    PointSplit(streams, start, fmt, i, IsElevation);
    PointSplit(streams, start, fmt, i, IsPointTime);
    TallyUpTo1(ele, IsMetadataOpen); TallyUpTo1(ele, IsTrkptOpen); TallyUpTo1(ele, IsTrkptClose);
    TallyUpTo1(ele, IsElevation); TallyUpTo1(ele, IsPointTime);
    TallyUpTo1(time, IsMetadataOpen); TallyUpTo1(time, IsTrkptOpen); TallyUpTo1(time, IsTrkptClose);
    TallyUpTo1(time, IsElevation); TallyUpTo1(time, IsPointTime);
  }

  /**
   * Counting over chunks telescopes: when chunk `i` holds `g(i + 1) - g(i)`
   * lines of a kind, the first `k` chunks hold `g(k) - g(0)`.
   */
  lemma {:induction false} ChunksTelescope(chunk: nat -> seq<Line>, g: nat -> int, kind: Line -> bool, k: nat)
    requires forall i: nat :: Tally(chunk(i), kind) == g(i + 1) - g(i)
    ensures Tally(Chunks(chunk, k), kind) == g(k) - g(0)
  {
    if k > 0 {
      ChunksTelescope(chunk, g, kind, k - 1);
      TallyAppend(Chunks(chunk, k - 1), chunk(k - 1), kind);
    }
  }

  /** The points before `k`: no metadata, and `k` opening and closing tags. */
  lemma PointsTagTally(streams: StreamSet, start: Option<int>, fmt: Formats, k: nat)
    ensures var ls := PointsBefore(streams, start, fmt, k);
      && Tally(ls, IsMetadataOpen) == 0
      && Tally(ls, IsTrkptOpen) == k
      && Tally(ls, IsTrkptClose) == k
  {
    var chunk := PointChunk(streams, start, fmt);
    forall i: nat
      ensures Tally(chunk(i), IsMetadataOpen) == 0
      ensures Tally(chunk(i), IsTrkptOpen) == 1
      ensures Tally(chunk(i), IsTrkptClose) == 1
    {
      PointTally(streams, start, fmt, i);
    }
    ChunksTelescope(chunk, (i: nat) => 0, IsMetadataOpen, k);
    ChunksTelescope(chunk, (i: nat) => i, IsTrkptOpen, k);
    ChunksTelescope(chunk, (i: nat) => i, IsTrkptClose, k);
  }

  /** The points before `k`: one elevation for each altitude among the first `k`. */
  lemma PointsElevationTally(streams: StreamSet, start: Option<int>, fmt: Formats, k: nat)
    ensures Tally(PointsBefore(streams, start, fmt, k), IsElevation) == Present(streams.altitude, k)
  {
    var chunk := PointChunk(streams, start, fmt);
    var g: nat -> int := (i: nat) => Present(streams.altitude, i);
    forall i: nat
      ensures Tally(chunk(i), IsElevation) == g(i + 1) - g(i)
    {
      PointTally(streams, start, fmt, i);
      assert g(i + 1) - g(i) == if At(streams.altitude, i).Some? then 1 else 0;
    }
    ChunksTelescope(chunk, g, IsElevation, k);
  }

  /** The points before `k`: with a start time, one time for each offset among the first `k`; without, none. */
  lemma PointsTimeTally(streams: StreamSet, start: Option<int>, fmt: Formats, k: nat)
    ensures Tally(PointsBefore(streams, start, fmt, k), IsPointTime) == if start.Some? then Present(streams.time, k) else 0
  {
    var chunk := PointChunk(streams, start, fmt);
    var g: nat -> int := (i: nat) => if start.Some? then Present(streams.time, i) else 0;
    forall i: nat
      ensures Tally(chunk(i), IsPointTime) == g(i + 1) - g(i)
    {
      PointTally(streams, start, fmt, i);
      assert g(i + 1) - g(i) == if start.Some? && At(streams.time, i).Some? then 1 else 0;
    }
    ChunksTelescope(chunk, g, IsPointTime, k);
  }

  /** The count of one kind over the document, part by part. */
  lemma GpxTallyParts(name: string, startDate: Option<string>, streams: StreamSet, fmt: Formats, kind: Line -> bool)
    ensures Tally(GpxLines(name, startDate, streams, fmt), kind)
         == Tally(HeadLines(name, startDate), kind)
            + Tally(PointsBefore(streams, StartTime(startDate, fmt), fmt, PointCount(streams)), kind)
            + (if kind(TrackClose) then 1 else 0)
  {
    var head := HeadLines(name, startDate);
    var points := PointsBefore(streams, StartTime(startDate, fmt), fmt, PointCount(streams));
    TallyAppend(head + points, [TrackClose], kind);
    TallyAppend(head, points, kind);
    assert [TrackClose][..0] == [];
  }

  lemma TallyOne(l: Line, kind: Line -> bool)
    ensures Tally([l], kind) == if kind(l) then 1 else 0
  {
    assert [l][..0] == [];
  }

  /** The count of one kind over the head, line by line. */
  lemma HeadTallyOf(name: string, startDate: Option<string>, kind: Line -> bool)
    ensures Tally(HeadLines(name, startDate), kind)
         == Tally([XmlDeclaration], kind) + Tally([GpxOpen], kind)
            + (if startDate.Some? then Tally([MetadataOpen], kind) + Tally([MetadataTime(XmlEscape(startDate.value))], kind) + Tally([MetadataClose], kind) else 0)
            + Tally([TrackOpen(XmlEscape(name))], kind)
  {
    var meta := match startDate case None => [] case Some(d) => [MetadataOpen, MetadataTime(XmlEscape(d)), MetadataClose];
    var track := [TrackOpen(XmlEscape(name))];
    assert HeadLines(name, startDate) == [XmlDeclaration] + [GpxOpen] + meta + track;
    TallyAppend([XmlDeclaration] + [GpxOpen] + meta, track, kind);
    TallyAppend([XmlDeclaration] + [GpxOpen], meta, kind);
    TallyAppend([XmlDeclaration], [GpxOpen], kind);
    if startDate.Some? {
      var d := startDate.value;
      assert meta == [MetadataOpen] + [MetadataTime(XmlEscape(d))] + [MetadataClose];
      TallyAppend([MetadataOpen] + [MetadataTime(XmlEscape(d))], [MetadataClose], kind);
      TallyAppend([MetadataOpen], [MetadataTime(XmlEscape(d))], kind);
    }
  }

  /** The head holds no line of a kind only points have. */
  lemma HeadLacksPointKind(name: string, startDate: Option<string>, kind: Line -> bool)
    requires forall l: Line :: kind(l) ==> l.TrkptOpen? || l.TrkptClose? || l.Elevation? || l.PointTime?
    ensures Tally(HeadLines(name, startDate), kind) == 0
  {
    HeadTallyOf(name, startDate, kind);
    TallyOne(XmlDeclaration, kind);
    TallyOne(GpxOpen, kind);
    TallyOne(TrackOpen(XmlEscape(name)), kind);
    if startDate.Some? {
      TallyOne(MetadataOpen, kind);
      TallyOne(MetadataTime(XmlEscape(startDate.value)), kind);
      TallyOne(MetadataClose, kind);
    }
  }

  /** The head has the metadata opening tag exactly when there is a start date, and no point. */
  lemma HeadTally(name: string, startDate: Option<string>)
    ensures var head := HeadLines(name, startDate);
      && Tally(head, IsMetadataOpen) == (if startDate.Some? then 1 else 0)
      && Tally(head, IsTrkptOpen) == 0
      && Tally(head, IsTrkptClose) == 0
      && Tally(head, IsElevation) == 0
      && Tally(head, IsPointTime) == 0
  {
    HeadTallyOf(name, startDate, IsMetadataOpen);
    TallyOne(XmlDeclaration, IsMetadataOpen);
    TallyOne(GpxOpen, IsMetadataOpen);
    TallyOne(TrackOpen(XmlEscape(name)), IsMetadataOpen);
    if startDate.Some? {
      TallyOne(MetadataOpen, IsMetadataOpen);
      TallyOne(MetadataTime(XmlEscape(startDate.value)), IsMetadataOpen);
      TallyOne(MetadataClose, IsMetadataOpen);
    }
    HeadLacksPointKind(name, startDate, IsTrkptOpen);
    HeadLacksPointKind(name, startDate, IsTrkptClose);
    HeadLacksPointKind(name, startDate, IsElevation);
    HeadLacksPointKind(name, startDate, IsPointTime);
  }

  /**
   * The document has a metadata block exactly when a start date is given,
   * one `<trkpt>` element per coordinate, an `<ele>` for each point that
   * has an altitude, and a `<time>` for each point that has an offset when
   * the start date parses (none at all when it does not).
   */
  lemma GpxTally(name: string, startDate: Option<string>, streams: StreamSet, fmt: Formats)
    ensures var ls := GpxLines(name, startDate, streams, fmt);
      var n := PointCount(streams);
      && Tally(ls, IsMetadataOpen) == (if startDate.Some? then 1 else 0)
      && Tally(ls, IsTrkptOpen) == n
      && Tally(ls, IsTrkptClose) == n
      && Tally(ls, IsElevation) == Present(streams.altitude, n)
      && Tally(ls, IsPointTime) == (if StartTime(startDate, fmt).Some? then Present(streams.time, n) else 0)
  {
    HeadTally(name, startDate);
    PointsTagTally(streams, StartTime(startDate, fmt), fmt, PointCount(streams));
    PointsElevationTally(streams, StartTime(startDate, fmt), fmt, PointCount(streams));
    PointsTimeTally(streams, StartTime(startDate, fmt), fmt, PointCount(streams));
    GpxTallyParts(name, startDate, streams, fmt, IsMetadataOpen);
    GpxTallyParts(name, startDate, streams, fmt, IsTrkptOpen);
    GpxTallyParts(name, startDate, streams, fmt, IsTrkptClose);
    GpxTallyParts(name, startDate, streams, fmt, IsElevation);
    GpxTallyParts(name, startDate, streams, fmt, IsPointTime);
  }

  /**
   * The `<name>` line carries the activity name escaped: it holds no angle
   * bracket, so it cannot close the element early, and unescaping it gives
   * the name back.
   */
  lemma GpxNameEscaped(name: string, startDate: Option<string>, streams: StreamSet, fmt: Formats)
    ensures var ls := GpxLines(name, startDate, streams, fmt);
      var at := if startDate.Some? then 5 else 2;
      && at < |ls| && ls[at] == TrackOpen(XmlEscape(name))
      && '<' !in ls[at].name && '>' !in ls[at].name
      && Unescape(ls[at].name) == name
  {
    EscapedHasNoAngles(name);
    UnescapeEscape(name);
  }
}
