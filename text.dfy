/**
 * The string operations of Rust's standard library that the scanners use,
 * on strings as sequences of characters: `find`, `rfind`, `split`, `trim`,
 * `trim_end_matches`, `strip_prefix`/`strip_suffix` and `replace`.
 * Positions are character indices; `ByteLen` and `Boundary` give the
 * UTF-8 byte counts for the places where the program uses a byte length
 * as a number.
 */
module Text {
  import opened Wrappers

  /** `pat` occurs in `s` starting at index `i`. */
  predicate IsAt(s: string, pat: string, i: nat) {
    i + |pat| <= |s| && s[i..i + |pat|] == pat
  }

  /** The first index at or after `from` where `pat` occurs. */
  function FindFrom(s: string, pat: string, from: nat): (r: Option<nat>)
    decreases |s| - from
    ensures r.Some? ==> from <= r.value && IsAt(s, pat, r.value)
    ensures r.Some? ==> forall j :: from <= j < r.value ==> !IsAt(s, pat, j)
    ensures r.None? ==> forall j :: from <= j ==> !IsAt(s, pat, j)
  {
    if from + |pat| > |s| then None
    else if IsAt(s, pat, from) then Some(from)
    else FindFrom(s, pat, from + 1)
  }

  /** `str::find` with a string pattern: the index of the first occurrence. */
  function Find(s: string, pat: string): (r: Option<nat>)
    ensures r.Some? ==> IsAt(s, pat, r.value)
    ensures r.Some? ==> forall j :: 0 <= j < r.value ==> !IsAt(s, pat, j)
    ensures r.None? ==> forall j :: 0 <= j ==> !IsAt(s, pat, j)
  {
    FindFrom(s, pat, 0)
  }

  /** Every character is ASCII, one byte in UTF-8. */
  predicate Ascii(s: string) {
    forall k :: 0 <= k < |s| ==> s[k] as int < 0x80
  }

  /** The number of bytes UTF-8 spends on a character. */
  function Utf8Width(c: char): (r: nat)
    ensures 1 <= r <= 4
    ensures r == 1 <==> c as int < 0x80
  {
    if c as int < 0x80 then 1 else if c as int < 0x800 then 2 else if c as int < 0x1_0000 then 3 else 4
  }

  /** `str::len`: the length of the UTF-8 encoding, in bytes. */
  function ByteLen(s: string): (r: nat)
    ensures r >= |s|
  {
    if s == [] then 0 else Utf8Width(s[0]) + ByteLen(s[1..])
  }

  /** ASCII text is as long in bytes as in characters. */
  lemma {:induction false} AsciiByteLen(s: string)
    requires Ascii(s)
    ensures ByteLen(s) == |s|
  {
    if s != [] {
      AsciiByteLen(s[1..]);
    }
  }

  /** Bytes add up under concatenation. */
  lemma {:induction false} ByteLenAppend(a: string, b: string)
    ensures ByteLen(a + b) == ByteLen(a) + ByteLen(b)
  {
    if a == [] {
      assert a + b == b;
    } else {
      assert (a + b)[0] == a[0] && (a + b)[1..] == a[1..] + b;
      ByteLenAppend(a[1..], b);
    }
  }

  /** The bytes of a prefix of `k` characters: the first character's, then those of the rest's prefix. */
  lemma PrefixByteLen(s: string)
    requires s != []
    ensures forall k :: 1 <= k <= |s| ==> ByteLen(s[..k]) == Utf8Width(s[0]) + ByteLen(s[1..][..k - 1])
  {
    forall k | 1 <= k <= |s|
      ensures ByteLen(s[..k]) == Utf8Width(s[0]) + ByteLen(s[1..][..k - 1])
    {
      assert s[..k][1..] == s[1..][..k - 1];
    }
  }

  /**
   * The number of characters that fill exactly `n` bytes of `s`, or None
   * when byte `n` falls inside a character or past the end: whether
   * `&s[..n]` is a slice on a character boundary.
   */
  function Boundary(s: string, n: nat): (r: Option<nat>)
    ensures r.Some? ==> r.value <= |s| && ByteLen(s[..r.value]) == n
    ensures r.None? ==> forall k :: 0 <= k <= |s| ==> ByteLen(s[..k]) != n
  {
    if n == 0 then (assert s[..0] == []; Some(0))
    else if s == [] then None
    else
      PrefixByteLen(s);
      var w := Utf8Width(s[0]);
      if w > n then None
      else match Boundary(s[1..], n - w)
        case None => None
        case Some(k) => Some(k + 1)
  }

  /** `str::contains` with a string pattern. */
  predicate Contains(s: string, pat: string) {
    Find(s, pat).Some?
  }

  /**
   * Every index at or after `from` where `pat` occurs, in increasing order:
   * a reference scan that tries each index in turn.
   */
  function Occurrences(s: string, pat: string, from: nat): (r: seq<nat>)
    decreases |s| - from
  {
    if from + |pat| > |s| then []
    else if IsAt(s, pat, from) then [from] + Occurrences(s, pat, from + 1)
    else Occurrences(s, pat, from + 1)
  }

  /** `str::find` with a character pattern. */
  function FindChar(s: string, c: char): (r: Option<nat>)
    ensures r.Some? ==> r.value < |s| && s[r.value] == c && c !in s[..r.value]
    ensures r.None? <==> c !in s
  {
    if s == [] then None
    else if s[0] == c then Some(0)
    else match FindChar(s[1..], c)
      case None => None
      case Some(i) =>
        assert s[..i + 1] == [s[0]] + s[1..][..i];
        Some(i + 1)
  }

  /** `str::rfind` with a character pattern: the index of the last occurrence. */
  function RFindChar(s: string, c: char): (r: Option<nat>)
    ensures r.Some? ==> r.value < |s| && s[r.value] == c && c !in s[r.value + 1..]
    ensures r.None? <==> c !in s
  {
    if s == [] then None
    else if s[|s| - 1] == c then Some(|s| - 1)
    else
      var r := RFindChar(s[..|s| - 1], c);
      assert s == s[..|s| - 1] + [s[|s| - 1]];
      r
  }

  /** `str::split` with a character separator, collected into a vector. */
  function Split(s: string, c: char): (r: seq<string>)
    decreases |s|
    ensures |r| >= 1
    ensures forall i :: 0 <= i < |r| ==> c !in r[i]
  {
    match FindChar(s, c)
    case None => [s]
    case Some(i) => [s[..i]] + Split(s[i + 1..], c)
  }

  /** Joins the pieces with the separator between them (`slice::join`). */
  function Join(pieces: seq<string>, c: char): string {
    if |pieces| <= 1 then (if pieces == [] then [] else pieces[0])
    else pieces[0] + [c] + Join(pieces[1..], c)
  }

  /** Rust's `char::is_whitespace`: the Unicode White_Space property. */
  predicate IsWhitespace(c: char) {
    c == ' ' || ('\t' <= c <= '\r') || c == '\U{0085}' || c == '\U{00A0}'
    || c == '\U{1680}' || ('\U{2000}' <= c <= '\U{200A}') || c == '\U{2028}'
    || c == '\U{2029}' || c == '\U{202F}' || c == '\U{205F}' || c == '\U{3000}'
  }

  /** `str::trim_start`. */
  function TrimStart(s: string): (r: string)
    ensures |r| <= |s| && r == s[|s| - |r|..]
    ensures r == [] || !IsWhitespace(r[0])
    ensures forall k :: 0 <= k < |s| - |r| ==> IsWhitespace(s[k])
  {
    if s != [] && IsWhitespace(s[0]) then TrimStart(s[1..]) else s
  }

  /** `str::trim_end`. */
  function TrimEnd(s: string): (r: string)
    ensures |r| <= |s| && r == s[..|r|]
    ensures r == [] || !IsWhitespace(r[|r| - 1])
    ensures forall k :: |r| <= k < |s| ==> IsWhitespace(s[k])
  {
    if s != [] && IsWhitespace(s[|s| - 1]) then TrimEnd(s[..|s| - 1]) else s
  }

  /** `str::trim`: both ends, whitespace only. */
  function Trim(s: string): string {
    TrimEnd(TrimStart(s))
  }

  /** `str::trim_end_matches` with a character: every trailing `c` goes. */
  function TrimEndMatches(s: string, c: char): (r: string)
    ensures |r| <= |s| && r == s[..|r|]
    ensures r == [] || r[|r| - 1] != c
    ensures forall k :: |r| <= k < |s| ==> s[k] == c
  {
    if s != [] && s[|s| - 1] == c then TrimEndMatches(s[..|s| - 1], c) else s
  }

  /** `str::strip_prefix`. */
  function StripPrefix(s: string, p: string): (r: Option<string>)
    ensures r.Some? <==> |p| <= |s| && s[..|p|] == p
    ensures r.Some? ==> p + r.value == s
  {
    if |p| <= |s| && s[..|p|] == p then Some(s[|p|..]) else None
  }

  /** `str::strip_suffix`. */
  function StripSuffix(s: string, p: string): (r: Option<string>)
    ensures r.Some? <==> |p| <= |s| && s[|s| - |p|..] == p
    ensures r.Some? ==> r.value + p == s
  {
    if |p| <= |s| && s[|s| - |p|..] == p then Some(s[..|s| - |p|]) else None
  }

  /** `str::replace` with a character pattern. */
  function ReplaceChar(s: string, c: char, rep: string): string {
    if s == [] then []
    else (if s[0] == c then rep else [s[0]]) + ReplaceChar(s[1..], c, rep)
  }

  /**
   * `str::replace` with a non-empty string pattern: occurrences are replaced
   * left to right and do not overlap.
   */
  function ReplaceStr(s: string, pat: string, rep: string): string
    requires |pat| > 0
    decreases |s|
  {
    if |s| < |pat| then s
    else if s[..|pat|] == pat then rep + ReplaceStr(s[|pat|..], pat, rep)
    else [s[0]] + ReplaceStr(s[1..], pat, rep)
  }

  // ---------------------------------------------------------------------
  // Facts used by the scanners

  lemma IsAtSuffix(s: string, pat: string, k: nat, j: nat)
    requires k <= |s|
    ensures IsAt(s[k..], pat, j) <==> IsAt(s, pat, k + j)
  {
    if j + |pat| <= |s| - k {
      assert s[k..][j..j + |pat|] == s[k + j..k + j + |pat|];
    }
  }

  /**
   * When the first character of `pat` occurs in it only once, an occurrence
   * cannot begin inside `a` and run into a following copy of `pat`; so the
   * first occurrence in `a + pat + b` is the one placed after `a`.
   */
  lemma {:induction false} FindPlaced(a: string, pat: string, b: string)
    requires |pat| > 0 && pat[0] !in pat[1..]
    requires !Contains(a, pat)
    ensures Find(a + pat + b, pat) == Some(|a|)
  {
    var s := a + pat + b;
    assert s[|a|..|a| + |pat|] == pat;
    assert IsAt(s, pat, |a|);
    forall j | 0 <= j < |a|
      ensures !IsAt(s, pat, j)
    {
      NoEarlyMatch(a, pat, b, j);
    }
  }

  lemma NoEarlyMatch(a: string, pat: string, b: string, j: nat)
    requires |pat| > 0 && pat[0] !in pat[1..]
    requires !Contains(a, pat)
    requires j < |a|
    ensures !IsAt(a + pat + b, pat, j)
  {
    var s := a + pat + b;
    if j + |pat| <= |a| {
      assert s[j..j + |pat|] == a[j..j + |pat|];
      assert !IsAt(a, pat, j);
    } else if j + |pat| <= |s| {
      assert s[|a|] == pat[0];
      assert s[j..j + |pat|][|a| - j] == s[|a|];
      assert pat[|a| - j] == pat[1..][|a| - j - 1];
    }
  }

  /** The last `c` of `a + [c] + b` is the one placed after `a` when `b` holds none. */
  lemma {:induction false} RFindPlaced(a: string, c: char, b: string)
    requires c !in b
    decreases |b|
    ensures RFindChar(a + [c] + b, c) == Some(|a|)
  {
    var s := a + [c] + b;
    if b != [] {
      assert s[|s| - 1] == b[|b| - 1];
      assert s[..|s| - 1] == a + [c] + b[..|b| - 1];
      RFindPlaced(a, c, b[..|b| - 1]);
    }
  }

  /** The reference scan lists only occurrences, at or after `from`, in increasing order. */
  lemma {:induction false} OccurrencesSound(s: string, pat: string, from: nat)
    decreases |s| - from
    ensures forall i :: 0 <= i < |Occurrences(s, pat, from)| ==>
      from <= Occurrences(s, pat, from)[i] && IsAt(s, pat, Occurrences(s, pat, from)[i])
    ensures forall i, j :: 0 <= i < j < |Occurrences(s, pat, from)| ==>
      Occurrences(s, pat, from)[i] < Occurrences(s, pat, from)[j]
  {
    if from + |pat| <= |s| {
      OccurrencesSound(s, pat, from + 1);
    }
  }

  /** The reference scan misses no occurrence. */
  lemma {:induction false} OccurrencesComplete(s: string, pat: string, from: nat, j: nat)
    requires from <= j && IsAt(s, pat, j)
    decreases j - from
    ensures j in Occurrences(s, pat, from)
  {
    if from < j {
      OccurrencesComplete(s, pat, from + 1, j);
    }
  }

  /** A stretch without occurrences can be skipped. */
  lemma {:induction false} OccurrencesSkip(s: string, pat: string, a: nat, b: nat)
    requires a <= b
    requires forall j :: a <= j < b ==> !IsAt(s, pat, j)
    decreases b - a
    ensures Occurrences(s, pat, a) == Occurrences(s, pat, b)
  {
    if a < b {
      OccurrencesSkip(s, pat, a + 1, b);
      if a + |pat| > |s| {
        OccurrencesBeyond(s, pat, b);
      }
    }
  }

  lemma OccurrencesBeyond(s: string, pat: string, from: nat)
    requires from + |pat| > |s|
    ensures Occurrences(s, pat, from) == []
  {
  }

  lemma OccurrencesStep(s: string, pat: string, q: nat)
    requires IsAt(s, pat, q)
    ensures Occurrences(s, pat, q) == [q] + Occurrences(s, pat, q + 1)
  {
  }

  /** Past the last occurrence there are none. */
  lemma OccurrencesNone(s: string, pat: string, k: nat)
    requires k <= |s| && Find(s[k..], pat).None?
    ensures Occurrences(s, pat, k) == []
  {
    forall j | k <= j
      ensures !IsAt(s, pat, j)
    {
      IsAtSuffix(s, pat, k, j - k);
    }
    OccurrencesSkip(s, pat, k, |s| + 1);
    OccurrencesBeyond(s, pat, |s| + 1);
  }

  /**
   * A pattern whose first character does not recur in it cannot overlap
   * itself: no occurrence starts inside another.
   */
  lemma NoSelfOverlap(s: string, pat: string, q: nat, j: nat)
    requires |pat| > 0 && pat[0] !in pat[1..]
    requires IsAt(s, pat, q) && q < j < q + |pat|
    ensures !IsAt(s, pat, j)
  {
    assert s[j] == pat[j - q] by { assert s[q..q + |pat|][j - q] == s[j]; }
    assert pat[j - q] == pat[1..][j - q - 1];
    assert j + |pat| <= |s| ==> s[j..j + |pat|][0] == s[j];
  }

  /** After an occurrence of a non-overlapping pattern, the next one starts past its end. */
  lemma OccurrencesAfterMatch(s: string, pat: string, q: nat)
    requires |pat| > 0 && pat[0] !in pat[1..] && IsAt(s, pat, q)
    ensures Occurrences(s, pat, q) == [q] + Occurrences(s, pat, q + |pat|)
  {
    OccurrencesStep(s, pat, q);
    forall j | q + 1 <= j < q + |pat|
      ensures !IsAt(s, pat, j)
    {
      NoSelfOverlap(s, pat, q, j);
    }
    OccurrencesSkip(s, pat, q + 1, q + |pat|);
  }

  /** The reference scan from `k` starts with what `find` on the rest returns. */
  lemma OccurrencesToFind(s: string, pat: string, k: nat, p: nat)
    requires k <= |s| && Find(s[k..], pat) == Some(p)
    ensures IsAt(s, pat, k + p)
    ensures Occurrences(s, pat, k) == Occurrences(s, pat, k + p)
  {
    IsAtSuffix(s, pat, k, p);
    forall j | k <= j < k + p
      ensures !IsAt(s, pat, j)
    {
      var d := j - k;
      assert !IsAt(s[k..], pat, d);
      IsAtSuffix(s, pat, k, d);
      assert k + d == j;
    }
    OccurrencesSkip(s, pat, k, k + p);
  }

  /**
   * Finding from `k` and then resuming after the match visits exactly the
   * occurrences the reference scan lists, for a non-overlapping pattern.
   */
  lemma OccurrencesAtFind(s: string, pat: string, k: nat, p: nat)
    requires k <= |s| && |pat| > 0 && pat[0] !in pat[1..]
    requires Find(s[k..], pat) == Some(p)
    ensures k + p + |pat| <= |s|
    ensures Occurrences(s, pat, k) == [k + p] + Occurrences(s, pat, k + p + |pat|)
  {
    OccurrencesToFind(s, pat, k, p);
    OccurrencesAfterMatch(s, pat, k + p);
  }

  /** The first `c` of `a + [c] + b` is the one placed after `a` when `a` holds none. */
  lemma FindCharPlaced(a: string, c: char, b: string)
    requires c !in a
    ensures FindChar(a + [c] + b, c) == Some(|a|)
  {
    var s := a + [c] + b;
    var r := FindChar(s, c);
    assert s[|a|] == c;
    assert r.Some?;
    if r.value != |a| {
      assert false;
    }
  }

  /** Nothing before the first `c` of `a + [c] + b` is cut. */
  lemma SplitPlaced(a: string, c: char, b: string)
    requires c !in a
    ensures Split(a + [c] + b, c) == [a] + Split(b, c)
  {
    var s := a + [c] + b;
    FindCharPlaced(a, c, b);
    assert s[..|a|] == a;
    assert s[|a| + 1..] == b;
  }

  /** A string without the separator is a single piece. */
  lemma SplitWhole(a: string, c: char)
    requires c !in a
    ensures Split(a, c) == [a]
  {
  }

  /** Splitting and joining again gives back the string. */
  lemma {:induction false} SplitJoin(s: string, c: char)
    decreases |s|
    ensures Join(Split(s, c), c) == s
  {
    match FindChar(s, c)
    case None =>
    case Some(i) =>
      var rest := Split(s[i + 1..], c);
      var pieces := [s[..i]] + rest;
      assert Split(s, c) == pieces;
      assert pieces[1..] == rest;
      assert Join(pieces, c) == s[..i] + [c] + Join(rest, c);
      SplitJoin(s[i + 1..], c);
      assert s == s[..i] + [c] + s[i + 1..];
  }

  /** `ReplaceChar` works character by character, so it distributes over `+`. */
  lemma {:induction false} ReplaceCharAppend(a: string, b: string, c: char, rep: string)
    ensures ReplaceChar(a + b, c, rep) == ReplaceChar(a, c, rep) + ReplaceChar(b, c, rep)
  {
    if a == [] {
      assert a + b == b;
    } else {
      var head := if a[0] == c then rep else [a[0]];
      assert (a + b)[0] == a[0];
      assert (a + b)[1..] == a[1..] + b;
      ReplaceCharAppend(a[1..], b, c, rep);
      assert ReplaceChar(a + b, c, rep) == head + ReplaceChar(a[1..] + b, c, rep);
    }
  }

  /** Text without the pattern's first character passes through `ReplaceStr` unchanged. */
  lemma {:induction false} ReplaceStrSkip(a: string, b: string, pat: string, rep: string)
    requires |pat| > 0 && pat[0] !in a
    ensures ReplaceStr(a + b, pat, rep) == a + ReplaceStr(b, pat, rep)
  {
    var s := a + b;
    if a == [] {
      assert s == b;
    } else if |s| < |pat| {
      ReplaceStrShort(b, pat, rep);
    } else {
      assert s[..|pat|] != pat by { assert s[..|pat|][0] == a[0]; }
      assert s[0] == a[0];
      assert s[1..] == a[1..] + b;
      ReplaceStrSkip(a[1..], b, pat, rep);
      assert ReplaceStr(s, pat, rep) == [a[0]] + ReplaceStr(a[1..] + b, pat, rep);
      assert a == [a[0]] + a[1..];
    }
  }

  lemma ReplaceStrShort(s: string, pat: string, rep: string)
    requires 0 < |pat| && |s| < |pat|
    ensures ReplaceStr(s, pat, rep) == s
  {
  }

  /** An occurrence at the front is replaced. */
  lemma ReplaceStrFront(b: string, pat: string, rep: string)
    requires |pat| > 0
    ensures ReplaceStr(pat + b, pat, rep) == rep + ReplaceStr(b, pat, rep)
  {
    assert (pat + b)[..|pat|] == pat;
    assert (pat + b)[|pat|..] == b;
  }
}
