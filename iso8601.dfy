/**
 * The two ISO-8601 timestamp parsers of the program: `parse_iso8601` in
 * src/tiles.rs (signed 32-bit fields, optional seconds, fraction dropped)
 * and `parse_iso8601` in src/map_server.rs (unsigned 32-bit fields, seconds
 * required, no fraction handling, result clamped at zero). Both drop a `Z`
 * or numeric offset suffix without applying it, and count days from 1970
 * with a year loop and a cumulative month table.
 */
module Iso8601 {
  import opened Wrappers
  import opened Text
  import opened Numbers
  import opened Calendar

  /** The six numeric fields a parser reads. */
  datatype DateTime = DateTime(year: int, month: int, day: int, hour: int, minute: int, second: int)

  /**
   * The suffix handling shared by both parsers: trim whitespace, drop every
   * trailing `Z`, then cut off a numeric offset.
   */
  function StripZone(s: string): (r: string)
    ensures forall k :: 0 <= k < |r| ==> r[k] in s
  {
    var t := TrimEndMatches(Trim(s), 'Z');
    assert forall k :: 0 <= k < |t| ==> t[k] in s by {
      var u := TrimStart(s);
      assert forall k :: 0 <= k < |u| ==> u[k] == s[|s| - |u| + k];
      var v := TrimEnd(u);
      assert forall k :: 0 <= k < |t| ==> t[k] == v[k] && v[k] == u[k];
    }
    CutOffset(t)
  }

  /**
   * Cut at the last `+`, or else at the last `-` when it stands beyond
   * byte 10, so that the date's own dashes are kept. The position compared
   * with 10 is a byte offset: the UTF-8 length of the text before it.
   */
  function CutOffset(t: string): (r: string)
    ensures |r| <= |t| && r == t[..|r|]
  {
    match RFindChar(t, '+')
    case Some(p) => t[..p]
    case None =>
      match RFindChar(t, '-')
      case Some(p) => if ByteLen(t[..p]) > 10 then t[..p] else t
      case None => t
  }

  /** `iter.filter_map(|p| p.parse().ok()).collect()`: the pieces that parse, in order. */
  function FilterMap(pieces: seq<string>, parse: string -> Option<int>): (r: seq<int>)
    ensures |r| <= |pieces|
  {
    if pieces == [] then []
    else (match parse(pieces[0]) case Some(v) => [v] case None => []) + FilterMap(pieces[1..], parse)
  }

  /**
   * The fields src/tiles.rs reads, or None where it returns 0 early: the
   * text must split on `T` into exactly two parts.
   */
  function TilesFields(s: string): Option<DateTime> {
    var parts := Split(StripZone(s), 'T');
    if |parts| != 2 then None else TilesRead(parts[0], parts[1])
  }

  /**
   * At least three `-`-pieces of the date and two `:`-pieces of the time
   * before its first `.` must parse as `i32`; seconds default to 0. Pieces
   * that fail are skipped, not kept as gaps.
   */
  function TilesRead(date: string, time: string): Option<DateTime> {
    var d := FilterMap(Split(date, '-'), ParseI32);
    var t := FilterMap(Split(Split(time, '.')[0], ':'), ParseI32);
    if |d| < 3 || |t| < 2 then None
    else Some(DateTime(d[0], d[1], d[2], t[0], t[1], if |t| > 2 then t[2] else 0))
  }

  /** The fields src/map_server.rs reads, or None where it returns 0 early. */
  function ServerFields(s: string): Option<DateTime> {
    var parts := Split(StripZone(s), 'T');
    if |parts| != 2 then None else ServerRead(parts[0], parts[1])
  }

  /**
   * The same split with `u32` pieces; three `:`-pieces of the whole time
   * must parse, and no fraction is cut off first.
   */
  function ServerRead(date: string, time: string): Option<DateTime> {
    var d := FilterMap(Split(date, '-'), ParseU32);
    var t := FilterMap(Split(time, ':'), ParseU32);
    if |d| < 3 || |t| < 3 then None
    else Some(DateTime(d[0], d[1], d[2], t[0], t[1], t[2]))
  }

  /** Seconds since 1970-01-01T00:00:00 of the fields, counted as the parsers count. */
  function EpochSeconds(f: DateTime): int
    requires 1 <= f.month <= 12
  {
    (DaysBeforeYear(f.year) + DayOfYear(f.year, f.month, f.day)) * 86400
      + f.hour * 3600 + f.minute * 60 + f.second
  }

  /**
   * A month outside 1..12 indexes past the month table and panics; so does
   * `day - 1` on the least `i32`, which overflows.
   */
  function TilesValue(fields: Option<DateTime>): Outcome<int> {
    match fields
    case None => Value(0)
    case Some(f) => if 1 <= f.month <= 12 && f.day != I32Min then Value(EpochSeconds(f)) else Panicked
  }

  /** From 1970 on, with a day from 1 and no negative clock field, the count is not negative. */
  lemma EpochSecondsNonNegative(f: DateTime)
    requires 1 <= f.month <= 12 && f.day >= 1 && f.hour >= 0 && f.minute >= 0 && f.second >= 0
    ensures EpochSeconds(f) >= 0
  {
    var days := DaysBeforeYear(f.year) + DayOfYear(f.year, f.month, f.day);
    assert days >= 0;
  }

  /** On the same real date and a clock without negative fields the two computations agree. */
  lemma ValuesAgree(f: DateTime)
    requires 1 <= f.month <= 12 && f.day >= 1 && f.hour >= 0 && f.minute >= 0 && f.second >= 0
    ensures ServerValue(Some(f)) == TilesValue(Some(f)) == Value(EpochSeconds(f))
  {
    EpochSecondsNonNegative(f);
  }

  /** What src/tiles.rs's parser returns. */
  function TilesTimestamp(s: string): Outcome<int> {
    TilesValue(TilesFields(s))
  }

  /**
   * Month 0 and day 0 underflow the unsigned `month - 1` and `day - 1` (the
   * fields are `u32`, so below 1 means 0), a month above 12 indexes past the
   * table; each panics. The sum is clamped at zero.
   */
  function ServerValue(fields: Option<DateTime>): Outcome<int> {
    match fields
    case None => Value(0)
    case Some(f) =>
      if f.month < 1 || f.month > 12 || f.day < 1 then Panicked
      else Value(if EpochSeconds(f) < 0 then 0 else EpochSeconds(f))
  }

  /** What src/map_server.rs's parser returns. */
  function ServerTimestamp(s: string): Outcome<int> {
    ServerValue(ServerFields(s))
  }

  /** The year loop both parsers share: whole years from 1970 up to `year`. */
  method CountYearDays(year: int) returns (days: int)
    ensures days == DaysBeforeYear(year)
  {
    days := 0;
    var y := 1970;
    while y < year
      invariant y == 1970 || 1970 < y <= year
      invariant days == DaysBeforeYear(y)
    {
      days := days + DaysInYear(y);
      y := y + 1;
    }
  }

  /** `parse_iso8601` of src/tiles.rs, once the fields are read. */
  method TilesSeconds(fields: Option<DateTime>) returns (r: Outcome<int>)
    ensures r == TilesValue(fields)
  {
    if fields.None? {
      return Value(0);
    }
    var f := fields.value;
    var days := CountYearDays(f.year);
    if !(1 <= f.month <= 12) {
      return Panicked;
    }
    days := days + CumulativeMonthDays[f.month - 1];
    if f.month > 2 && IsLeapYear(f.year) {
      days := days + 1;
    }
    if f.day == I32Min {
      return Panicked;
    }
    days := days + (f.day - 1);
    r := Value(days * 86400 + f.hour * 3600 + f.minute * 60 + f.second);
  }

  /** `parse_iso8601` of src/tiles.rs. */
  method ParseTilesTimestamp(s: string) returns (r: Outcome<int>)
    ensures r == TilesTimestamp(s)
  {
    r := TilesSeconds(TilesFields(s));
  }

  /** `parse_iso8601` of src/map_server.rs. */
  method ParseServerTimestamp(s: string) returns (r: Outcome<int>)
    ensures r == ServerTimestamp(s)
  {
    r := ServerSeconds(ServerFields(s));
  }

  /** `parse_iso8601` of src/map_server.rs, once the fields are read. */
  method ServerSeconds(fields: Option<DateTime>) returns (r: Outcome<int>)
    ensures r == ServerValue(fields)
  {
    if fields.None? {
      return Value(0);
    }
    var f := fields.value;
    var days := CountYearDays(f.year);
    if f.month < 1 || f.month > 12 {
      return Panicked;
    }
    days := days + CumulativeMonthDays[f.month - 1];
    if f.month > 2 && IsLeapYear(f.year) {
      days := days + 1;
    }
    if f.day < 1 {
      return Panicked;
    }
    days := days + (f.day - 1);
    var secs := days * 86400 + f.hour * 3600 + f.minute * 60 + f.second;
    r := Value(if secs < 0 then 0 else secs);
  }

  // ---------------------------------------------------------------------
  // Properties

  /** Without a `T` there are not two parts, and both parsers give 0. */
  lemma NoSeparatorGivesZero(s: string)
    requires 'T' !in s
    ensures TilesTimestamp(s) == Value(0)
    ensures ServerTimestamp(s) == Value(0)
  {
    var t := StripZone(s);
    assert 'T' !in t;
    NoSeparatorLeft(s);
  }

  /** Text whose stripped form has no `T` reads as 0 in both parsers. */
  lemma NoSeparatorLeft(s: string)
    requires 'T' !in StripZone(s)
    ensures TilesTimestamp(s) == Value(0)
    ensures ServerTimestamp(s) == Value(0)
  {
    SplitWhole(StripZone(s), 'T');
  }

  /** `YYYY-MM-DD`. */
  function DateText(y: string, mo: string, d: string): string {
    y + "-" + mo + "-" + d
  }

  /** `HH:MM`, then `:SS` when `sec` is not empty, then `.fraction` when `frac` is not empty. */
  function TimeText(h: string, mi: string, sec: string, frac: string): string {
    h + ":" + mi + (if sec == [] then [] else ":" + sec) + (if frac == [] then [] else "." + frac)
  }

  /** A timestamp in the form the program's GPX files carry, without a zone. */
  function Stamp(y: string, mo: string, d: string, h: string, mi: string, sec: string, frac: string): string {
    DateText(y, mo, d) + "T" + TimeText(h, mi, sec, frac)
  }

  /** Digit fields of the documented widths; seconds absent or two digits. */
  predicate WellFormed(y: string, mo: string, d: string, h: string, mi: string, sec: string, frac: string) {
    && |y| == 4 && |mo| == 2 && |d| == 2 && |h| == 2 && |mi| == 2 && (|sec| == 0 || |sec| == 2)
    && AllDigits(y) && AllDigits(mo) && AllDigits(d) && AllDigits(h) && AllDigits(mi)
    && AllDigits(sec) && AllDigits(frac)
  }

  /** The fields a well-formed stamp spells. */
  function StampFields(y: string, mo: string, d: string, h: string, mi: string, sec: string): DateTime
    requires AllDigits(y) && AllDigits(mo) && AllDigits(d) && AllDigits(h) && AllDigits(mi) && AllDigits(sec)
  {
    DateTime(DigitsValue(y), DigitsValue(mo), DigitsValue(d), DigitsValue(h), DigitsValue(mi),
             if sec == [] then 0 else DigitsValue(sec))
  }

  lemma DigitsLackChar(s: string, c: char)
    requires AllDigits(s) && !IsDigit(c)
    ensures c !in s
  {
    forall i | 0 <= i < |s|
      ensures s[i] != c
    {
    }
  }

  lemma TrimKeeps(s: string)
    requires s != [] && !IsWhitespace(s[0]) && !IsWhitespace(s[|s| - 1])
    ensures Trim(s) == s
  {
  }

  /** ASCII text the suffix handling leaves alone: no `+`, and no `-` beyond index 10. */
  predicate Clean(s: string) {
    && |s| > 10 && Ascii(s) && IsDigit(s[0]) && IsDigit(s[|s| - 1]) && '+' !in s
    && forall k :: 10 < k < |s| ==> s[k] != '-'
  }

  lemma CleanKept(s: string)
    requires Clean(s)
    ensures Trim(s) == s && TrimEndMatches(s, 'Z') == s && CutOffset(s) == s
  {
    TrimKeeps(s);
    if RFindChar(s, '-').Some? {
      var p := RFindChar(s, '-').value;
      AsciiByteLen(s[..p]);
    }
  }

  lemma DigitsAscii(s: string)
    requires AllDigits(s)
    ensures Ascii(s)
  {
  }

  lemma AsciiJoined(a: string, b: string)
    requires Ascii(a) && Ascii(b)
    ensures Ascii(a + b)
  {
  }

  /** A trailing `Z` is dropped. */
  lemma ZuluDropped(s: string)
    requires Clean(s)
    ensures StripZone(s + "Z") == s
  {
    CleanKept(s);
    var t := s + "Z";
    TrimKeeps(t);
    assert t[..|t| - 1] == s;
  }

  /** Text that starts and ends with a digit goes straight to the offset cut. */
  lemma DigitEnds(t: string)
    requires t != [] && IsDigit(t[0]) && IsDigit(t[|t| - 1])
    ensures StripZone(t) == CutOffset(t)
  {
    TrimKeeps(t);
    assert TrimEndMatches(t, 'Z') == t;
  }

  /** The cut falls at a `+` after which no `+` follows. */
  lemma CutAtPlus(s: string, off: string)
    requires '+' !in off
    ensures CutOffset(s + ['+'] + off) == s
  {
    RFindPlaced(s, '+', off);
    assert (s + ['+'] + off)[..|s|] == s;
  }

  /** The cut falls at a `-` beyond byte 10 in text with no `+`, after which no `-` follows. */
  lemma CutAtMinus(s: string, off: string)
    requires ByteLen(s) > 10 && '+' !in s && '+' !in off && '-' !in off
    ensures CutOffset(s + ['-'] + off) == s
  {
    var t := s + ['-'] + off;
    assert '+' !in t;
    RFindPlaced(s, '-', off);
    assert t[..|s|] == s;
  }

  /**
   * The position compared with 10 counts bytes: in `1-2-éééé-3T4:5` the
   * last `-` is the ninth character but stands at byte 12, so the text is
   * cut there, and the `T` goes with the cut.
   */
  lemma DashPastByteTen()
    ensures |"1-2-éééé"| == 8 && ByteLen("1-2-éééé") == 12
    ensures CutOffset("1-2-éééé-3T4:5") == "1-2-éééé"
  {
    var s, off := "1-2-éééé", "3T4:5";
    assert ByteLen(s) == 12;
    assert s + ['-'] + off == "1-2-éééé-3T4:5";
    CutAtMinus(s, off);
  }

  /**
   * When the last `-` stands past byte 10 and the `T` comes after it, the
   * cut takes the `T` with it and both parsers read 0.
   */
  lemma DashCutTakesSeparator(s: string, off: string)
    requires s != [] && IsDigit(s[0]) && off != [] && IsDigit(off[|off| - 1])
    requires ByteLen(s) > 10 && '+' !in s && 'T' !in s && '+' !in off && '-' !in off
    ensures TilesTimestamp(s + ['-'] + off) == Value(0)
    ensures ServerTimestamp(s + ['-'] + off) == Value(0)
  {
    var t := s + ['-'] + off;
    assert t[0] == s[0] && t[|t| - 1] == off[|off| - 1];
    CutAtMinus(s, off);
    DigitEnds(t);
    NoSeparatorLeft(t);
  }

  /** A `+hh:mm` or `-hh:mm` offset is cut off, not applied. */
  lemma OffsetDropped(s: string, sign: char, oh: string, om: string)
    requires Clean(s) && (sign == '+' || sign == '-')
    requires |om| > 0 && AllDigits(oh) && AllDigits(om)
    ensures StripZone(s + [sign] + (oh + ":" + om)) == s
  {
    var off := oh + ":" + om;
    var t := s + [sign] + off;
    DigitsLackChar(oh, '+'); DigitsLackChar(om, '+'); DigitsLackChar(oh, '-'); DigitsLackChar(om, '-');
    assert '+' !in off && '-' !in off;
    assert t[|t| - 1] == om[|om| - 1];
    assert t[0] == s[0];
    DigitEnds(t);
    if sign == '+' {
      CutAtPlus(s, off);
    } else {
      CutAtMinus(s, off);
    }
  }

  lemma StampAscii(y: string, mo: string, d: string, h: string, mi: string, sec: string, frac: string)
    requires AllDigits(y) && AllDigits(mo) && AllDigits(d) && AllDigits(h) && AllDigits(mi)
    requires AllDigits(sec) && AllDigits(frac)
    ensures Ascii(Stamp(y, mo, d, h, mi, sec, frac))
  {
    DigitsAscii(y); DigitsAscii(mo); DigitsAscii(d); DigitsAscii(h); DigitsAscii(mi);
    DigitsAscii(sec); DigitsAscii(frac);
    var date := DateText(y, mo, d);
    AsciiJoined(y, "-"); AsciiJoined(y + "-", mo); AsciiJoined(y + "-" + mo, "-");
    AsciiJoined(y + "-" + mo + "-", d);
    var secPart: string := if sec == [] then [] else ":" + sec;
    var fracPart: string := if frac == [] then [] else "." + frac;
    AsciiJoined(":", sec); AsciiJoined(".", frac);
    AsciiJoined(h, ":"); AsciiJoined(h + ":", mi); AsciiJoined(h + ":" + mi, secPart);
    AsciiJoined(h + ":" + mi + secPart, fracPart);
    AsciiJoined(date, "T"); AsciiJoined(date + "T", TimeText(h, mi, sec, frac));
  }

  lemma StampClean(y: string, mo: string, d: string, h: string, mi: string, sec: string, frac: string)
    requires WellFormed(y, mo, d, h, mi, sec, frac)
    ensures Clean(Stamp(y, mo, d, h, mi, sec, frac))
  {
    var date := DateText(y, mo, d);
    var time := TimeText(h, mi, sec, frac);
    var s := Stamp(y, mo, d, h, mi, sec, frac);
    DigitsLackChar(y, '+'); DigitsLackChar(mo, '+'); DigitsLackChar(d, '+');
    DigitsLackChar(h, '+'); DigitsLackChar(mi, '+'); DigitsLackChar(sec, '+'); DigitsLackChar(frac, '+');
    DigitsLackChar(h, '-'); DigitsLackChar(mi, '-'); DigitsLackChar(sec, '-'); DigitsLackChar(frac, '-');
    assert '-' !in time;
    forall k | 10 < k < |s|
      ensures s[k] != '-'
    {
      assert s[k] == time[k - 11];
    }
    StampAscii(y, mo, d, h, mi, sec, frac);
    assert s[0] == y[0];
    if frac != [] {
      assert s[|s| - 1] == frac[|frac| - 1];
    } else if sec != [] {
      assert s[|s| - 1] == sec[|sec| - 1];
    } else {
      assert s[|s| - 1] == mi[|mi| - 1];
    }
  }

  /**
   * The zone suffix is cut off and never applied: a stamp followed by `Z`,
   * `+hh:mm` or `-hh:mm` reads as the stamp alone, in both parsers.
   */
  lemma ZoneIgnored(y: string, mo: string, d: string, h: string, mi: string, sec: string, frac: string,
                    sign: char, oh: string, om: string)
    requires WellFormed(y, mo, d, h, mi, sec, frac)
    requires sign == '+' || sign == '-'
    requires |oh| == 2 && |om| == 2 && AllDigits(oh) && AllDigits(om)
    ensures var s := Stamp(y, mo, d, h, mi, sec, frac);
            && StripZone(s) == s
            && StripZone(s + "Z") == s
            && StripZone(s + [sign] + (oh + ":" + om)) == s
  {
    var s := Stamp(y, mo, d, h, mi, sec, frac);
    StampClean(y, mo, d, h, mi, sec, frac);
    CleanKept(s);
    ZuluDropped(s);
    OffsetDropped(s, sign, oh, om);
  }

  /** So the timestamp does not depend on the zone. */
  lemma ZoneIgnoredByParsers(s: string, z: string)
    requires StripZone(s + z) == StripZone(s)
    ensures TilesTimestamp(s + z) == TilesTimestamp(s)
    ensures ServerTimestamp(s + z) == ServerTimestamp(s)
  {
  }

  lemma FilterMapThree(a: string, b: string, c: string, parse: string -> Option<int>)
    requires parse(a).Some? && parse(b).Some? && parse(c).Some?
    ensures FilterMap([a, b, c], parse) == [parse(a).value, parse(b).value, parse(c).value]
  {
    assert [a, b, c][1..] == [b, c];
    assert [b, c][1..] == [c];
    assert FilterMap([c], parse) == [parse(c).value];
    assert FilterMap([b, c], parse) == [parse(b).value, parse(c).value];
  }

  lemma FilterMapTwo(a: string, b: string, parse: string -> Option<int>)
    requires parse(a).Some? && parse(b).Some?
    ensures FilterMap([a, b], parse) == [parse(a).value, parse(b).value]
  {
    assert [a, b][1..] == [b];
  }

  lemma FilterMapTwoAndFailure(a: string, b: string, c: string, parse: string -> Option<int>)
    requires parse(a).Some? && parse(b).Some? && parse(c).None?
    ensures FilterMap([a, b, c], parse) == [parse(a).value, parse(b).value]
  {
    assert [a, b, c][1..] == [b, c];
    assert [b, c][1..] == [c];
    assert FilterMap([c], parse) == [];
    assert FilterMap([b, c], parse) == [parse(b).value];
  }

  /** The parts on either side of the one `T`. */
  lemma SplitsAtT(date: string, time: string)
    requires 'T' !in date && 'T' !in time
    ensures Split(date + "T" + time, 'T') == [date, time]
  {
    SplitPlaced(date, 'T', time);
    SplitWhole(time, 'T');
  }

  /** The date of a stamp splits into its three digit fields. */
  lemma DateSplits(y: string, mo: string, d: string)
    requires AllDigits(y) && AllDigits(mo) && AllDigits(d)
    ensures Split(DateText(y, mo, d), '-') == [y, mo, d]
  {
    DigitsLackChar(y, '-'); DigitsLackChar(mo, '-'); DigitsLackChar(d, '-');
    assert DateText(y, mo, d) == y + ['-'] + (mo + ['-'] + d);
    SplitPlaced(y, '-', mo + ['-'] + d);
    SplitPlaced(mo, '-', d);
    SplitWhole(d, '-');
  }

  /** `HH:MM[:SS]` split on `:`. */
  lemma ClockSplits(h: string, mi: string, sec: string)
    requires ':' !in h && ':' !in mi && ':' !in sec
    ensures Split(TimeText(h, mi, sec, []), ':') == if sec == [] then [h, mi] else [h, mi, sec]
  {
    if sec == [] {
      assert TimeText(h, mi, sec, []) == h + [':'] + mi;
      SplitPlaced(h, ':', mi);
      SplitWhole(mi, ':');
    } else {
      assert TimeText(h, mi, sec, []) == h + [':'] + (mi + [':'] + sec);
      SplitPlaced(h, ':', mi + [':'] + sec);
      SplitPlaced(mi, ':', sec);
      SplitWhole(sec, ':');
    }
  }

  lemma StampParts(y: string, mo: string, d: string, h: string, mi: string, sec: string, frac: string)
    requires WellFormed(y, mo, d, h, mi, sec, frac)
    ensures StripZone(Stamp(y, mo, d, h, mi, sec, frac)) == Stamp(y, mo, d, h, mi, sec, frac)
    ensures Split(Stamp(y, mo, d, h, mi, sec, frac), 'T') == [DateText(y, mo, d), TimeText(h, mi, sec, frac)]
  {
    StampClean(y, mo, d, h, mi, sec, frac);
    CleanKept(Stamp(y, mo, d, h, mi, sec, frac));
    DigitsLackChar(y, 'T'); DigitsLackChar(mo, 'T'); DigitsLackChar(d, 'T');
    DigitsLackChar(h, 'T'); DigitsLackChar(mi, 'T'); DigitsLackChar(sec, 'T'); DigitsLackChar(frac, 'T');
    SplitsAtT(DateText(y, mo, d), TimeText(h, mi, sec, frac));
  }

  /** Both parsers read the three date fields. */
  lemma DateFields(y: string, mo: string, d: string)
    requires |y| == 4 && |mo| == 2 && |d| == 2 && AllDigits(y) && AllDigits(mo) && AllDigits(d)
    ensures FilterMap(Split(DateText(y, mo, d), '-'), ParseI32) == [DigitsValue(y), DigitsValue(mo), DigitsValue(d)]
    ensures FilterMap(Split(DateText(y, mo, d), '-'), ParseU32) == [DigitsValue(y), DigitsValue(mo), DigitsValue(d)]
  {
    DateSplits(y, mo, d);
    ParseShortDigits(y); ParseShortDigits(mo); ParseShortDigits(d);
    FilterMapThree(y, mo, d, ParseI32);
    FilterMapThree(y, mo, d, ParseU32);
  }

  /** Cutting at the first `.` leaves the clock without the fraction. */
  lemma FractionCut(h: string, mi: string, sec: string, frac: string)
    requires AllDigits(h) && AllDigits(mi) && AllDigits(sec)
    ensures Split(TimeText(h, mi, sec, frac), '.')[0] == TimeText(h, mi, sec, [])
  {
    var clock := TimeText(h, mi, sec, []);
    DigitsLackChar(h, '.'); DigitsLackChar(mi, '.'); DigitsLackChar(sec, '.');
    assert '.' !in clock;
    if frac == [] {
      assert TimeText(h, mi, sec, frac) == clock;
      SplitWhole(clock, '.');
    } else {
      assert TimeText(h, mi, sec, frac) == clock + ['.'] + frac;
      SplitPlaced(clock, '.', frac);
    }
  }

  /** `HH:MM[:SS]` read as `i32` fields. */
  lemma ClockFieldsI32(h: string, mi: string, sec: string)
    requires |h| == 2 && |mi| == 2 && (|sec| == 0 || |sec| == 2)
    requires AllDigits(h) && AllDigits(mi) && AllDigits(sec)
    ensures FilterMap(Split(TimeText(h, mi, sec, []), ':'), ParseI32)
            == if sec == [] then [DigitsValue(h), DigitsValue(mi)] else [DigitsValue(h), DigitsValue(mi), DigitsValue(sec)]
  {
    DigitsLackChar(h, ':'); DigitsLackChar(mi, ':'); DigitsLackChar(sec, ':');
    ClockSplits(h, mi, sec);
    ParseShortDigits(h); ParseShortDigits(mi);
    if sec == [] {
      FilterMapTwo(h, mi, ParseI32);
    } else {
      ParseShortDigits(sec);
      FilterMapThree(h, mi, sec, ParseI32);
    }
  }

  /** src/tiles.rs reads the clock before the fraction: two or three fields. */
  lemma TilesClockFields(h: string, mi: string, sec: string, frac: string)
    requires |h| == 2 && |mi| == 2 && (|sec| == 0 || |sec| == 2)
    requires AllDigits(h) && AllDigits(mi) && AllDigits(sec) && AllDigits(frac)
    ensures FilterMap(Split(Split(TimeText(h, mi, sec, frac), '.')[0], ':'), ParseI32)
            == if sec == [] then [DigitsValue(h), DigitsValue(mi)] else [DigitsValue(h), DigitsValue(mi), DigitsValue(sec)]
  {
    FractionCut(h, mi, sec, frac);
    ClockFieldsI32(h, mi, sec);
  }

  /** src/tiles.rs reads the date and the clock of a stamp; the fraction is cut off. */
  lemma TilesReadsParts(y: string, mo: string, d: string, h: string, mi: string, sec: string, frac: string)
    requires WellFormed(y, mo, d, h, mi, sec, frac)
    ensures TilesRead(DateText(y, mo, d), TimeText(h, mi, sec, frac)) == Some(StampFields(y, mo, d, h, mi, sec))
  {
    DateFields(y, mo, d);
    TilesClockFields(h, mi, sec, frac);
  }

  /**
   * src/tiles.rs on `YYYY-MM-DDTHH:MM[:SS][.fraction]`: the six fields are
   * read as written, missing seconds count as 0, and the fraction is ignored.
   */
  lemma TilesReadsStamp(y: string, mo: string, d: string, h: string, mi: string, sec: string, frac: string)
    requires WellFormed(y, mo, d, h, mi, sec, frac)
    ensures TilesFields(Stamp(y, mo, d, h, mi, sec, frac)) == Some(StampFields(y, mo, d, h, mi, sec))
  {
    StampParts(y, mo, d, h, mi, sec, frac);
    TilesReadsParts(y, mo, d, h, mi, sec, frac);
  }

  /**
   * The value src/tiles.rs gives a well-formed stamp: the seconds since 1970
   * of the fields it spells, or a panic for a month outside 1..12.
   */
  lemma TilesTimestampOfStamp(y: string, mo: string, d: string, h: string, mi: string, sec: string, frac: string)
    requires WellFormed(y, mo, d, h, mi, sec, frac)
    ensures var f := StampFields(y, mo, d, h, mi, sec);
            TilesTimestamp(Stamp(y, mo, d, h, mi, sec, frac))
            == if 1 <= f.month <= 12 then Value(EpochSeconds(f)) else Panicked
  {
    TilesReadsStamp(y, mo, d, h, mi, sec, frac);
  }

  /** src/map_server.rs reads the same fields from a stamp with seconds and no fraction. */
  lemma ServerReadsParts(y: string, mo: string, d: string, h: string, mi: string, sec: string)
    requires WellFormed(y, mo, d, h, mi, sec, []) && |sec| == 2
    ensures ServerRead(DateText(y, mo, d), TimeText(h, mi, sec, [])) == Some(StampFields(y, mo, d, h, mi, sec))
  {
    DateFields(y, mo, d);
    DigitsLackChar(h, ':'); DigitsLackChar(mi, ':'); DigitsLackChar(sec, ':');
    ClockSplits(h, mi, sec);
    ParseShortDigits(h); ParseShortDigits(mi); ParseShortDigits(sec);
    FilterMapThree(h, mi, sec, ParseU32);
  }

  lemma ServerReadsStamp(y: string, mo: string, d: string, h: string, mi: string, sec: string)
    requires WellFormed(y, mo, d, h, mi, sec, []) && |sec| == 2
    ensures ServerFields(Stamp(y, mo, d, h, mi, sec, [])) == Some(StampFields(y, mo, d, h, mi, sec))
  {
    StampParts(y, mo, d, h, mi, sec, []);
    ServerReadsParts(y, mo, d, h, mi, sec);
  }

  /**
   * With seconds and no fraction, src/map_server.rs reads the same fields
   * and, for a month in 1..12 and a day from 1, returns the same value as
   * src/tiles.rs (the clamp at zero does not bite from 1970 on).
   */
  lemma VariantsAgree(y: string, mo: string, d: string, h: string, mi: string, sec: string)
    requires WellFormed(y, mo, d, h, mi, sec, []) && |sec| == 2
    requires 1 <= DigitsValue(mo) <= 12 && DigitsValue(d) >= 1
    ensures ServerTimestamp(Stamp(y, mo, d, h, mi, sec, [])) == TilesTimestamp(Stamp(y, mo, d, h, mi, sec, []))
    ensures ServerTimestamp(Stamp(y, mo, d, h, mi, sec, [])).Value?
  {
    TilesReadsStamp(y, mo, d, h, mi, sec, []);
    ServerReadsStamp(y, mo, d, h, mi, sec);
    ValuesAgree(StampFields(y, mo, d, h, mi, sec));
  }

  /**
   * src/map_server.rs does not cut a fraction: the seconds piece `SS.fff`
   * fails to parse, only two time fields remain, and the result is 0,
   * where src/tiles.rs reads the seconds and drops the fraction.
   */
  lemma ServerRejectsFraction(y: string, mo: string, d: string, h: string, mi: string, sec: string, frac: string)
    requires WellFormed(y, mo, d, h, mi, sec, frac) && |sec| == 2 && frac != []
    ensures ServerTimestamp(Stamp(y, mo, d, h, mi, sec, frac)) == Value(0)
    ensures TilesTimestamp(Stamp(y, mo, d, h, mi, sec, frac)) == TilesTimestamp(Stamp(y, mo, d, h, mi, sec, []))
  {
    TilesReadsStamp(y, mo, d, h, mi, sec, frac);
    TilesReadsStamp(y, mo, d, h, mi, sec, []);
    StampParts(y, mo, d, h, mi, sec, frac);
    ServerDropsFraction(h, mi, sec, frac);
  }

  lemma ServerDropsFraction(h: string, mi: string, sec: string, frac: string)
    requires AllDigits(h) && AllDigits(mi) && AllDigits(sec) && AllDigits(frac)
    requires |h| == 2 && |mi| == 2 && |sec| == 2 && frac != []
    ensures FilterMap(Split(TimeText(h, mi, sec, frac), ':'), ParseU32) == [DigitsValue(h), DigitsValue(mi)]
  {
    var last := sec + "." + frac;
    DigitsLackChar(h, ':'); DigitsLackChar(mi, ':'); DigitsLackChar(sec, ':'); DigitsLackChar(frac, ':');
    assert TimeText(h, mi, sec, frac) == TimeText(h, mi, last, []);
    ClockSplits(h, mi, last);
    ParseShortDigits(h); ParseShortDigits(mi);
    assert last[2] == '.';
    StrayCharRejected(last, 2, false, 0, U32Max);
    FilterMapTwoAndFailure(h, mi, last, ParseU32);
  }
}
