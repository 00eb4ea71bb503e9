/**
 * The version string of an ontology, taken from its header lines while the
 * generator writes `initialize()`. Two regular expressions are tried with
 * `regex_match`, which must match the whole line:
 *
 *  - `.*?[^-]version: (\S+)`: some text, one character other than `-`, the
 *    tag `version: `, then one or more non-blank characters up to the end of
 *    the line; the capture is that last run;
 *  - `\s*date: (\S+).*`: optional leading blanks, the tag `date: `, then a
 *    run of non-blank characters (greedy, so the whole run), then anything.
 *
 * The patterns are written out by hand here: a ghost predicate per pattern
 * says what a match is, and a capture function computes it.
 */
module CvVersion {
  import opened Ascii
  import opened Wrappers

  const VersionTag: string := "version: "
  const DateTag: string := "date: "

  /** The value used when no header line matches either pattern. */
  const UnknownVersion: string := "unknown"

  /** The tag `version: ` occurs in `line` at position `k`. */
  predicate VersionTagAt(line: string, k: int) {
    0 <= k && k + |VersionTag| <= |line| && line[k..k + |VersionTag|] == VersionTag
  }

  /** `line` matches `.*?[^-]version: (\S+)` with `v` as the captured group. */
  ghost predicate MatchesVersion(line: string, v: string) {
    exists k :: 1 <= k && VersionTagAt(line, k) && line[k - 1] != '-'
      && v == line[k + |VersionTag|..] && v != [] && NoSpace(v)
  }

  /**
   * The lazy `.*?` tries the shortest prefix first: try each tag position
   * from `k` on, and accept the first whose rest of the line is a
   * non-empty run of non-blank characters.
   */
  function VersionCaptureFrom(line: string, k: nat): Option<string>
    requires k >= 1
    decreases |line| - k
  {
    if k + |VersionTag| >= |line| then None
    else if line[k - 1] != '-' && line[k..k + |VersionTag|] == VersionTag && NoSpace(line[k + |VersionTag|..])
    then Some(line[k + |VersionTag|..])
    else VersionCaptureFrom(line, k + 1)
  }

  /** The captured version of a header line, if it matches the version pattern. */
  function VersionCapture(line: string): Option<string> {
    VersionCaptureFrom(line, 1)
  }

  /** A second tag after `k1` puts the blank of `version: ` into the rest of the line after `k1`. */
  lemma LaterTagHasBlank(line: string, k1: int, k2: int)
    requires VersionTagAt(line, k1) && VersionTagAt(line, k2) && k1 < k2
    ensures !NoSpace(line[k1 + |VersionTag|..])
  {
    assert line[k2..k2 + |VersionTag|][8] == ' ';
    assert line[k1 + |VersionTag|..][k2 + 8 - (k1 + |VersionTag|)] == ' ';
  }

  /**
   * At most one tag position can be followed by a blank-free rest of line,
   * so the match of the version pattern, when there is one, is unique.
   */
  lemma VersionTagUnique(line: string, k1: int, k2: int)
    requires VersionTagAt(line, k1) && NoSpace(line[k1 + |VersionTag|..])
    requires VersionTagAt(line, k2) && NoSpace(line[k2 + |VersionTag|..])
    ensures k1 == k2
  {
    if k1 < k2 {
      LaterTagHasBlank(line, k1, k2);
    } else if k2 < k1 {
      LaterTagHasBlank(line, k2, k1);
    }
  }

  lemma {:induction false} VersionCaptureFromSound(line: string, k: nat)
    requires k >= 1
    ensures VersionCaptureFrom(line, k).Some? ==> MatchesVersion(line, VersionCaptureFrom(line, k).value)
    decreases |line| - k
  {
    if k + |VersionTag| < |line| {
      if line[k - 1] != '-' && line[k..k + |VersionTag|] == VersionTag && NoSpace(line[k + |VersionTag|..]) {
        assert VersionTagAt(line, k);
      } else {
        VersionCaptureFromSound(line, k + 1);
      }
    }
  }

  lemma {:induction false} VersionCaptureFromComplete(line: string, k: nat, j: int)
    requires 1 <= k <= j && VersionTagAt(line, j) && line[j - 1] != '-'
    requires line[j + |VersionTag|..] != [] && NoSpace(line[j + |VersionTag|..])
    ensures VersionCaptureFrom(line, k) == Some(line[j + |VersionTag|..])
    decreases j - k
  {
    if k < j {
      if line[k - 1] != '-' && line[k..k + |VersionTag|] == VersionTag && NoSpace(line[k + |VersionTag|..]) {
        VersionTagUnique(line, k, j);
      }
      VersionCaptureFromComplete(line, k + 1, j);
    }
  }

  /** The capture function computes exactly the matches of the version pattern. */
  lemma VersionCaptureIff(line: string, v: string)
    ensures VersionCapture(line) == Some(v) <==> MatchesVersion(line, v)
  {
    VersionCaptureFromSound(line, 1);
    if MatchesVersion(line, v) {
      var j :| 1 <= j && VersionTagAt(line, j) && line[j - 1] != '-'
        && v == line[j + |VersionTag|..] && v != [] && NoSpace(v);
      VersionCaptureFromComplete(line, 1, j);
    }
  }

  /**
   * `format-version: ...` and `data-version: ...` lines never match: the
   * only tag that could be followed by a blank-free value is preceded by `-`.
   */
  lemma HyphenatedVersionNeverMatches(p: string, value: string, v: string)
    requires NoSpace(value)
    ensures !MatchesVersion(p + "-" + VersionTag + value, v)
  {
    var line := p + "-" + VersionTag + value;
    var k0 := |p| + 1;
    assert line[k0..k0 + |VersionTag|] == VersionTag;
    assert line[k0 + |VersionTag|..] == value;
    if MatchesVersion(line, v) {
      var k :| 1 <= k && VersionTagAt(line, k) && line[k - 1] != '-'
        && v == line[k + |VersionTag|..] && v != [] && NoSpace(v);
      VersionTagUnique(line, k, k0);
    }
  }

  /** `line` matches `\s*date: (\S+).*` with `d` as the captured group. */
  ghost predicate MatchesDate(line: string, d: string) {
    exists w :: 0 <= w && w + |DateTag| <= |line| && AllSpace(line[..w]) && line[w..w + |DateTag|] == DateTag
      && d != [] && NoSpace(d) && w + |DateTag| + |d| <= |line| && d == line[w + |DateTag|..w + |DateTag| + |d|]
      && (w + |DateTag| + |d| == |line| || IsSpace(line[w + |DateTag| + |d|]))
  }

  /** The captured date of a header line, if it matches the date pattern. */
  function DateCapture(line: string): Option<string> {
    var w := SpaceRun(line);
    if w + |DateTag| <= |line| && line[w..w + |DateTag|] == DateTag && NonSpaceRun(line[w + |DateTag|..]) != []
    then Some(NonSpaceRun(line[w + |DateTag|..]))
    else None
  }

  lemma DateCaptureSound(line: string)
    ensures DateCapture(line).Some? ==> MatchesDate(line, DateCapture(line).value)
  {
    var w := SpaceRun(line);
    if DateCapture(line).Some? {
      var d := DateCapture(line).value;
      var rest := line[w + |DateTag|..];
      assert d == rest[..|d|];
      assert d == line[w + |DateTag|..w + |DateTag| + |d|];
      if w + |DateTag| + |d| < |line| {
        assert rest[|d|] == line[w + |DateTag| + |d|];
      }
    }
  }

  lemma DateCaptureComplete(line: string, d: string, w': int)
    requires 0 <= w' && w' + |DateTag| <= |line| && AllSpace(line[..w']) && line[w'..w' + |DateTag|] == DateTag
    requires d != [] && NoSpace(d) && w' + |DateTag| + |d| <= |line| && d == line[w' + |DateTag|..w' + |DateTag| + |d|]
    requires w' + |DateTag| + |d| == |line| || IsSpace(line[w' + |DateTag| + |d|])
    ensures DateCapture(line) == Some(d)
  {
    var w := SpaceRun(line);
    assert line[w'] == 'd' by { assert line[w'..w' + |DateTag|][0] == 'd'; }
    assert w == w';
    var rest := line[w + |DateTag|..];
    var r := NonSpaceRun(rest);
    assert d == rest[..|d|];
    assert |r| == |d|;
  }

  /** The capture function computes exactly the matches of the date pattern. */
  lemma DateCaptureIff(line: string, d: string)
    ensures DateCapture(line) == Some(d) <==> MatchesDate(line, d)
  {
    DateCaptureSound(line);
    if MatchesDate(line, d) {
      var w' :| 0 <= w' && w' + |DateTag| <= |line| && AllSpace(line[..w']) && line[w'..w' + |DateTag|] == DateTag
        && d != [] && NoSpace(d) && w' + |DateTag| + |d| <= |line| && d == line[w' + |DateTag|..w' + |DateTag| + |d|]
        && (w' + |DateTag| + |d| == |line| || IsSpace(line[w' + |DateTag| + |d|]));
      DateCaptureComplete(line, d, w');
    }
  }

  /** The two header patterns, tried in this order on each line. */
  datatype Pattern = VersionPattern | DatePattern

  function Capture(p: Pattern, line: string): Option<string> {
    match p
    case VersionPattern => VersionCapture(line)
    case DatePattern => DateCapture(line)
  }

  ghost predicate Matches(p: Pattern, line: string, v: string) {
    match p
    case VersionPattern => MatchesVersion(line, v)
    case DatePattern => MatchesDate(line, v)
  }

  lemma CaptureIff(p: Pattern, line: string, v: string)
    ensures Capture(p, line) == Some(v) <==> Matches(p, line, v)
  {
    match p
    case VersionPattern => VersionCaptureIff(line, v);
    case DatePattern => DateCaptureIff(line, v);
  }

  /** A captured value is never empty (both patterns capture `\S+`). */
  lemma CaptureNonEmpty(p: Pattern, line: string)
    ensures Capture(p, line).Some? ==> Capture(p, line).value != []
  {
    CaptureIff(p, line, if Capture(p, line).Some? then Capture(p, line).value else []);
  }

  /** The first value `p` captures among `lines`, in line order. */
  function FirstCapture(lines: seq<string>, p: Pattern): Option<string> {
    if lines == [] then None
    else if Capture(p, lines[0]).Some? then Capture(p, lines[0])
    else FirstCapture(lines[1..], p)
  }

  lemma {:induction false} FirstCaptureAppend(a: seq<string>, b: seq<string>, p: Pattern)
    ensures FirstCapture(a + b, p) == if FirstCapture(a, p).Some? then FirstCapture(a, p) else FirstCapture(b, p)
    decreases |a|
  {
    if a != [] {
      assert (a + b)[1..] == a[1..] + b;
      FirstCaptureAppend(a[1..], b, p);
    } else {
      assert a + b == b;
    }
  }

  /** What `FirstCapture` finds is a capture of some line, hence never empty. */
  lemma {:induction false} FirstCaptureNonEmpty(lines: seq<string>, p: Pattern)
    ensures FirstCapture(lines, p).Some? ==> FirstCapture(lines, p).value != []
    decreases |lines|
  {
    if lines != [] {
      CaptureNonEmpty(p, lines[0]);
      FirstCaptureNonEmpty(lines[1..], p);
    }
  }

  /** Reference for the scan: first version match, else first date match, else `unknown`. */
  function HeaderVersion(header: seq<string>): string {
    match FirstCapture(header, VersionPattern)
    case Some(v) => v
    case None =>
      match FirstCapture(header, DatePattern)
      case Some(d) => d
      case None => UnknownVersion
  }

  /**
   * The scan of the source: a version match sets the value and stops the
   * scan; a date match sets it only while no value has been found yet; with
   * neither, the value is `unknown`.
   */
  method ScanVersion(header: seq<string>) returns (version: string)
    ensures version == HeaderVersion(header)
  {
    version := "";
    var i := 0;
    while i < |header|
      invariant 0 <= i <= |header|
      invariant FirstCapture(header[..i], VersionPattern) == None
      invariant version == match FirstCapture(header[..i], DatePattern) case Some(d) => d case None => ""
    {
      FirstCaptureAppend(header[..i], [header[i]], VersionPattern);
      FirstCaptureAppend(header[..i], [header[i]], DatePattern);
      FirstCaptureNonEmpty(header[..i], DatePattern);
      assert header[..i + 1] == header[..i] + [header[i]];
      var v := VersionCapture(header[i]);
      if v.Some? {
        version := v.value;
        FirstCaptureAppend(header[..i], header[i..], VersionPattern);
        assert header == header[..i] + header[i..];
        assert header[i..][0] == header[i];
        CaptureNonEmpty(VersionPattern, header[i]);
        break;
      }
      if version == "" {
        var d := DateCapture(header[i]);
        if d.Some? {
          version := d.value;
        }
      }
      i := i + 1;
    }
    if i == |header| {
      assert header[..i] == header;
    }
    if version == "" {
      FirstCaptureNonEmpty(header, DatePattern);
      version := UnknownVersion;
    }
  }

  /** No line before `i` matches `p`, so `p` captures nothing from the first `i` lines. */
  lemma {:induction false} NoCaptureBefore(header: seq<string>, i: int, p: Pattern)
    requires 0 <= i <= |header|
    requires forall j, u :: 0 <= j < i ==> !Matches(p, header[j], u)
    ensures FirstCapture(header[..i], p) == None
    decreases i
  {
    if i > 0 {
      NoCaptureBefore(header, i - 1, p);
      FirstCaptureAppend(header[..i - 1], [header[i - 1]], p);
      assert header[..i] == header[..i - 1] + [header[i - 1]];
      if Capture(p, header[i - 1]).Some? {
        CaptureIff(p, header[i - 1], Capture(p, header[i - 1]).value);
      }
    }
  }

  /** The first line matching `p` supplies what `p` captures from the header. */
  lemma FirstMatchCaptured(header: seq<string>, i: int, p: Pattern, v: string)
    requires 0 <= i < |header| && Matches(p, header[i], v)
    requires forall j, u :: 0 <= j < i ==> !Matches(p, header[j], u)
    ensures FirstCapture(header, p) == Some(v)
  {
    CaptureIff(p, header[i], v);
    NoCaptureBefore(header, i, p);
    FirstCaptureAppend(header[..i], header[i..], p);
    assert header == header[..i] + header[i..];
  }

  /** A version line overrides any date, wherever the date stands. */
  lemma VersionLineWins(header: seq<string>, i: int, v: string)
    requires 0 <= i < |header| && MatchesVersion(header[i], v)
    requires forall j, u :: 0 <= j < i ==> !MatchesVersion(header[j], u)
    ensures HeaderVersion(header) == v
  {
    FirstMatchCaptured(header, i, VersionPattern, v);
  }

  /** Without a version line, the first date line supplies the value. */
  lemma DateLineFallback(header: seq<string>, i: int, d: string)
    requires forall j, u :: 0 <= j < |header| ==> !MatchesVersion(header[j], u)
    requires 0 <= i < |header| && MatchesDate(header[i], d)
    requires forall j, u :: 0 <= j < i ==> !MatchesDate(header[j], u)
    ensures HeaderVersion(header) == d
  {
    NoCaptureBefore(header, |header|, VersionPattern);
    assert header[..|header|] == header;
    FirstMatchCaptured(header, i, DatePattern, d);
  }

  /** With neither kind of line, the value is `unknown`. */
  lemma NeitherLine(header: seq<string>)
    requires forall j, u :: 0 <= j < |header| ==> !MatchesVersion(header[j], u) && !MatchesDate(header[j], u)
    ensures HeaderVersion(header) == UnknownVersion
  {
    NoCaptureBefore(header, |header|, VersionPattern);
    NoCaptureBefore(header, |header|, DatePattern);
    assert header[..|header|] == header;
  }

  /** A line made of the date tag, a blank-free word and then a blank or nothing captures the word. */
  lemma DateTagLine(d: string, rest: string)
    requires d != [] && NoSpace(d) && (rest == [] || IsSpace(rest[0]))
    ensures DateCapture(DateTag + d + rest) == Some(d)
  {
    var line := DateTag + d + rest;
    assert line[..|DateTag|] == DateTag;
    assert line[|DateTag|..|DateTag| + |d|] == d;
    if rest != [] {
      assert line[|DateTag| + |d|] == rest[0];
    }
    DateCaptureComplete(line, d, 0);
  }

  /** A line that starts with neither a blank nor `d` does not match the date pattern. */
  lemma NotDateLine(line: string)
    requires line != [] && !IsSpace(line[0]) && line[0] != 'd'
    ensures DateCapture(line) == None
  {
    assert SpaceRun(line) == 0;
    if |DateTag| <= |line| {
      assert line[..|DateTag|][0] == line[0];
    }
  }

  /** The first letter of the version tag. */
  lemma TagStartsWithV(line: string, k: int)
    requires VersionTagAt(line, k)
    ensures line[k] == 'v'
  {
    assert line[k..k + |VersionTag|][0] == line[k];
  }

  /** A line without the letter `v` captures no version. */
  lemma NoTagNoVersion(line: string)
    requires 'v' !in line
    ensures VersionCapture(line) == None
  {
    forall u ensures !MatchesVersion(line, u) {
      if MatchesVersion(line, u) {
        var k :| 1 <= k && VersionTagAt(line, k) && line[k - 1] != '-'
          && u == line[k + |VersionTag|..] && u != [] && NoSpace(u);
        TagStartsWithV(line, k);
      }
    }
    VersionCaptureNone(line);
  }

  /** `format-version: ...` captures no version. */
  lemma FormatVersionLine(value: string)
    requires NoSpace(value)
    ensures VersionCapture("format-" + VersionTag + value) == None
  {
    var line := "format-" + VersionTag + value;
    assert line == "format" + "-" + VersionTag + value;
    forall u ensures !MatchesVersion(line, u) {
      HyphenatedVersionNeverMatches("format", value, u);
    }
    VersionCaptureNone(line);
  }

  /** With no match of the version pattern, nothing is captured. */
  lemma VersionCaptureNone(line: string)
    requires forall u :: !MatchesVersion(line, u)
    ensures VersionCapture(line) == None
  {
    if VersionCapture(line).Some? {
      VersionCaptureIff(line, VersionCapture(line).value);
    }
  }

  /**
   * A typical OBO header: `format-version:` is not taken for the ontology's
   * version, so the first word after `date:` is used instead.
   */
  lemma FormatVersionHeader(l0: string, l1: string)
    requires l0 == "format-version: 1.2" && l1 == "date: 01:01:2020 00:00"
    ensures HeaderVersion([l0, l1]) == "01:01:2020"
  {
    FormatVersionLineUnmatched(l0);
    DateLineMatched(l1);
    DateAfterUnmatchedLine(l0, l1, "01:01:2020");
  }

  /** `format-version: 1.2` matches neither header pattern. */
  lemma FormatVersionLineUnmatched(l0: string)
    requires l0 == "format-version: 1.2"
    ensures VersionCapture(l0) == None && DateCapture(l0) == None
  {
    assert l0 == "format-" + VersionTag + "1.2";
    FormatVersionLine("1.2");
    NotDateLine(l0);
  }

  /** `date: 01:01:2020 00:00` matches the date pattern only, capturing the date. */
  lemma DateLineMatched(l1: string)
    requires l1 == "date: 01:01:2020 00:00"
    ensures VersionCapture(l1) == None && DateCapture(l1) == Some("01:01:2020")
  {
    assert l1 == DateTag + "01:01:2020" + " 00:00";
    DateTagLine("01:01:2020", " 00:00");
    DateLineNoVersion(l1);
  }

  lemma DateLineNoVersion(l1: string)
    requires l1 == "date: 01:01:2020 00:00"
    ensures VersionCapture(l1) == None
  {
    assert 'v' !in l1;
    NoTagNoVersion(l1);
  }

  /** A first line matching neither pattern is skipped. */
  lemma DateAfterUnmatchedLine(a: string, b: string, d: string)
    requires VersionCapture(a) == None && DateCapture(a) == None
    requires VersionCapture(b) == None && DateCapture(b) == Some(d)
    ensures HeaderVersion([a, b]) == d
  {
    var h := [a, b];
    assert h[1..] == [b] && h[1..][1..] == [];
    assert FirstCapture(h, VersionPattern) == FirstCapture([b], VersionPattern) == None;
    assert FirstCapture(h, DatePattern) == FirstCapture([b], DatePattern) == Some(d);
  }
}
