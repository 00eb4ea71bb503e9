/**
 * The string and path helpers of BiblioSpec: the score-type name table and
 * its two lookups, the file-name helpers `getPath`, `getFileRoot`,
 * `hasExtension` and `replaceExtension`, the in-place `replaceAllChar`,
 * `deleteTrailingWhitespace` and `strcpy_all_caps`.
 *
 * `std::string` values are `string`; a `const char*` argument is a `CString`,
 * a string without the terminating NUL. `size_t` is 64 bits wide.
 */
module BlibUtils {
  import opened Wrappers
  import opened Ascii
  import opened Seqs

  /*
   * Score types.
   */

  const NumScoreTypes: nat := 13

  /** `PSM_SCORE_TYPE`: the position of a score type in the name table. */
  type ScoreType = i: int | 0 <= i < NumScoreTypes

  const UnknownScoreType: ScoreType := 0

  /** `scoreTypeNames`, indexed by score type. */
  const ScoreTypeNames: seq<string> := [
    "UNKNOWN",
    "PERCOLATOR QVALUE",
    "PEPTIDE PROPHET SOMETHING",
    "SPECTRUM MILL",
    "IDPICKER FDR",
    "MASCOT IONS SCORE",
    "TANDEM EXPECTATION VALUE",
    "PROTEIN PILOT CONFIDENCE",
    "SCAFFOLD SOMETHING",
    "WATERS MSE PEPTIDE SCORE",
    "OMSSA EXPECTATION SCORE",
    "PROTEIN PROSPECTOR EXPECTATION SCORE",
    "SEQUEST XCORR"
  ]

  /** `scoreTypeToString`: the table entry of a score type. */
  function ScoreTypeToString(t: ScoreType): string {
    ScoreTypeNames[t]
  }

  /**
   * The score type `stringToScoreType` gives a name: the first table entry
   * equal to the name, `UNKNOWN` for a name not in the table.
   */
  function ScoreTypeOf(name: string): (t: ScoreType)
    ensures name in ScoreTypeNames ==> ScoreTypeNames[t] == name && forall j :: 0 <= j < t ==> ScoreTypeNames[j] != name
    ensures name !in ScoreTypeNames ==> t == UnknownScoreType
  {
    match IndexOf(ScoreTypeNames, name)
    case None => UnknownScoreType
    case Some(t) =>
      assert forall j :: 0 <= j < t ==> ScoreTypeNames[..t][j] == ScoreTypeNames[j];
      t
  }

  /** `stringToScoreType`: a scan of the name table that stops at the first equal entry. */
  method StringToScoreType(scoreName: string) returns (valFromString: ScoreType)
    ensures valFromString == ScoreTypeOf(scoreName)
  {
    valFromString := UnknownScoreType;
    var i := 0;
    while i < NumScoreTypes
      invariant 0 <= i <= NumScoreTypes
      invariant valFromString == UnknownScoreType
      invariant forall j :: 0 <= j < i ==> ScoreTypeNames[j] != scoreName
    {
      if scoreName == ScoreTypeNames[i] {
        valFromString := i;
        break;
      }
      i := i + 1;
    }
  }

  /** A name's length together with its first two characters tells the table entries apart. */
  function NameKey(name: string): (int, int, int) {
    (|name|, if |name| > 0 then name[0] as int else -1, if |name| > 1 then name[1] as int else -1)
  }

  /** The score-type names are pairwise distinct. */
  lemma ScoreTypeNamesDistinct()
    ensures forall i, j :: 0 <= i < j < NumScoreTypes ==> ScoreTypeNames[i] != ScoreTypeNames[j]
  {
    var keys := seq(NumScoreTypes, i requires 0 <= i < NumScoreTypes => NameKey(ScoreTypeNames[i]));
    assert keys == [
      (7, 'U' as int, 'N' as int), (17, 'P' as int, 'E' as int), (25, 'P' as int, 'E' as int),
      (13, 'S' as int, 'P' as int), (12, 'I' as int, 'D' as int), (17, 'M' as int, 'A' as int),
      (24, 'T' as int, 'A' as int), (24, 'P' as int, 'R' as int), (18, 'S' as int, 'C' as int),
      (24, 'W' as int, 'A' as int), (23, 'O' as int, 'M' as int), (36, 'P' as int, 'R' as int),
      (13, 'S' as int, 'E' as int)];
    forall i, j | 0 <= i < j < NumScoreTypes ensures ScoreTypeNames[i] != ScoreTypeNames[j] {
      assert keys[i] != keys[j];
    }
  }

  /** Round trip: every score type's name reads back as that score type. */
  lemma ScoreTypeRoundTrip(t: ScoreType)
    ensures ScoreTypeOf(ScoreTypeToString(t)) == t
  {
    ScoreTypeNamesDistinct();
    var r := ScoreTypeOf(ScoreTypeToString(t));
    assert ScoreTypeNames[r] == ScoreTypeNames[t];
  }

  /*
   * File names.
   */

  /** The separators `find_last_of("/\\")` looks for. */
  const Slashes: set<char> := {'/', '\\'}

  /** `find_last_of(cs)`: the last position holding one of `cs`, `None` (`npos`) when there is none. */
  function FindLastOf(s: string, cs: set<char>): (r: Option<nat>)
    ensures r.Some? ==> r.value < |s| && s[r.value] in cs && forall j :: r.value < j < |s| ==> s[j] !in cs
    ensures r.None? ==> forall j :: 0 <= j < |s| ==> s[j] !in cs
  {
    if s == [] then None
    else if s[|s| - 1] in cs then Some(|s| - 1)
    else FindLastOf(s[..|s| - 1], cs)
  }

  /**
   * `getPath`: everything up to and including the last slash or backslash,
   * the empty string when there is neither.
   */
  function GetPath(fullFileName: string): (filepath: string)
    ensures |filepath| <= |fullFileName| && filepath == fullFileName[..|filepath|]
    ensures |filepath| > 0 ==> filepath[|filepath| - 1] in Slashes
    ensures forall j :: |filepath| <= j < |fullFileName| ==> fullFileName[j] !in Slashes
  {
    match FindLastOf(fullFileName, Slashes)
    case None => ""
    case Some(lastSlash) => fullFileName[..lastSlash + 1]
  }

  /** A path that `getPath` returns is its own path. */
  lemma GetPathIdempotent(fullFileName: string)
    ensures GetPath(GetPath(fullFileName)) == GetPath(fullFileName)
  {
    var p := GetPath(fullFileName);
    var q := GetPath(p);
    if |p| > 0 {
      assert |q| == |p|;
    }
  }

  /** `size_t` arithmetic is modulo 2^64; `npos` is its largest value. */
  const SizeModulus: nat := 0x1_0000_0000_0000_0000
  const Npos: nat := SizeModulus - 1

  /** `s.substr(pos, count)`: at most `count` characters from `pos`, fewer at the end of `s`. */
  function Substr(s: string, pos: nat, count: nat): (r: string)
    requires pos <= |s|
    ensures |r| <= count && pos + |r| <= |s| && r == s[pos..pos + |r|]
    ensures |r| < count ==> pos + |r| == |s|
  {
    if count <= |s| - pos then s[pos..pos + count] else s[pos..]
  }

  /** Where the file name starts: just after the last slash or backslash, or at 0. */
  function NameStart(fullFileName: string): (start: nat)
    ensures start <= |fullFileName|
    ensures start > 0 ==> fullFileName[start - 1] in Slashes
    ensures forall j :: start <= j < |fullFileName| ==> fullFileName[j] !in Slashes
  {
    match FindLastOf(fullFileName, Slashes)
    case None => 0
    case Some(lastSlash) => lastSlash + 1
  }

  /**
   * `getFileRoot`: `substr(lastSlash, lastDot - lastSlash)` with
   * `lastDot - lastSlash` computed in `size_t`. For any string shorter than
   * 2^64 this is the file name (the text after the last slash) without its
   * last extension: the part before the name's last dot, or the whole name
   * when it has no dot, a dot before the name wrapping the count around.
   */
  function GetFileRoot(fullFileName: string): (fileroot: string)
    ensures |fullFileName| < SizeModulus ==>
      var name := fullFileName[NameStart(fullFileName)..];
      |fileroot| <= |name| && fileroot == name[..|fileroot|]
      && ((|fileroot| == |name| && '.' !in name)
          || (|fileroot| < |name| && name[|fileroot|] == '.' && '.' !in name[|fileroot| + 1..]))
  {
    var start := NameStart(fullFileName);
    var lastDot := match FindLastOf(fullFileName, {'.'}) case None => Npos case Some(d) => d;
    FileRootOfName(fullFileName, start, lastDot);
    Substr(fullFileName, start, (lastDot - start) % SizeModulus)
  }

  /**
   * The count `lastDot - lastSlash` of `getFileRoot`: ends the root at the
   * last dot when it lies inside the name, and otherwise (no dot, or a dot
   * before the name) wraps to a count that takes the whole name.
   */
  lemma FileRootOfName(s: string, start: nat, lastDot: nat)
    requires start == NameStart(s)
    requires lastDot == match FindLastOf(s, {'.'}) case None => Npos case Some(d) => d
    ensures start <= |s|
    ensures |s| < SizeModulus ==>
      var name := s[start..];
      var fileroot := Substr(s, start, (lastDot - start) % SizeModulus);
      |fileroot| <= |name| && fileroot == name[..|fileroot|]
      && ((|fileroot| == |name| && '.' !in name)
          || (|fileroot| < |name| && name[|fileroot|] == '.' && '.' !in name[|fileroot| + 1..]))
  {
    if |s| < SizeModulus {
      var name := s[start..];
      var count := (lastDot - start) % SizeModulus;
      SizeDifference(lastDot, start);
      var fileroot := Substr(s, start, count);
      if start <= lastDot < |s| {
        assert fileroot == s[start..lastDot];
        assert name[|fileroot|] == s[lastDot];
        assert name[|fileroot| + 1..] == s[lastDot + 1..];
      } else {
        assert fileroot == name;
      }
    }
  }

  /** A difference of two `size_t` values, computed modulo 2^64. */
  lemma SizeDifference(a: nat, b: nat)
    requires a < SizeModulus && b < SizeModulus
    ensures (a - b) % SizeModulus == if a >= b then a - b else SizeModulus + a - b
  {
  }

  /**
   * `hasExtension` compares the last `strlen(ext)` characters of the name
   * with `ext` as C strings. Finding that suffix by address arithmetic
   * needs `ext` to be no longer than the name. For a name
   * without NUL characters (always the case for the `const char*` overload)
   * the result says exactly whether the name ends with `ext`.
   */
  function HasExtension(filename: string, ext: CString): (r: bool)
    requires |ext| <= |filename|
    ensures '\0' !in filename ==> (r <==> filename[|filename| - |ext|..] == ext)
  {
    UpToNul(filename[|filename| - |ext|..]) == ext
  }

  /** `find_first_of(c)`: the first position holding `c`, `None` (`npos`) when there is none. */
  function FindFirstOf(s: seq<char>, c: char): (r: Option<nat>)
    ensures r.Some? ==> r.value < |s| && s[r.value] == c && forall j :: 0 <= j < r.value ==> s[j] != c
    ensures r.None? ==> c !in s
  {
    if s == [] then None
    else if s[0] == c then Some(0)
    else match FindFirstOf(s[1..], c)
      case None => None
      case Some(i) => Some(i + 1)
  }

  /** `find_first_of(c, from)`: the first position at or after `from` holding `c`, `None` (`npos`) when there is none. */
  function FindFrom(s: seq<char>, c: char, from: nat): (r: Option<nat>)
    requires from <= |s|
    ensures r.Some? ==> from <= r.value < |s| && s[r.value] == c && forall j :: from <= j < r.value ==> s[j] != c
    ensures r.None? ==> forall j :: from <= j < |s| ==> s[j] != c
  {
    match FindFirstOf(s[from..], c)
    case None =>
      assert forall j :: from <= j < |s| ==> s[j] == s[from..][j - from];
      None
    case Some(i) => Some(from + i)
  }

  /** `s` with every `findChar` replaced by `replaceChar`. */
  ghost function CharsReplaced(s: seq<char>, findChar: char, replaceChar: char): seq<char> {
    seq(|s|, i requires 0 <= i < |s| => if s[i] == findChar then replaceChar else s[i])
  }

  /** The occurrences of `c` up to `p`, for `p` the first at or after `done`, are one more than before `done`. */
  lemma CountStep(s: seq<char>, done: nat, p: nat, c: char)
    requires done <= p < |s| && s[p] == c
    requires forall j :: done <= j < p ==> s[j] != c
    ensures multiset(s[..p + 1])[c] == multiset(s[..done])[c] + 1
  {
    assert s[..p + 1] == s[..done] + s[done..p] + [c];
    assert c !in multiset(s[done..p]);
  }

  /** With no `c` from `done` on, the prefix up to `done` holds all occurrences of `c`. */
  lemma CountDone(s: seq<char>, done: nat, c: char)
    requires done <= |s|
    requires forall j :: done <= j < |s| ==> s[j] != c
    ensures multiset(s[..done])[c] == multiset(s)[c]
  {
    assert s == s[..done] + s[done..];
    assert c !in multiset(s[done..]);
  }

  /**
   * `cur` is `original` with the `findChar`s before `done` replaced and the
   * rest untouched.
   */
  ghost predicate ReplacedUpTo(cur: seq<char>, original: seq<char>, done: nat, findChar: char, replaceChar: char) {
    |cur| == |original| && done <= |original|
    && (forall j :: 0 <= j < done ==> cur[j] == if original[j] == findChar then replaceChar else original[j])
    && (forall j :: done <= j < |cur| ==> cur[j] == original[j])
  }

  /** Overwriting the first `findChar` at or after `done` replaces one more occurrence. */
  lemma ReplaceStep(cur: seq<char>, original: seq<char>, done: nat, p: nat, findChar: char, replaceChar: char)
    requires ReplacedUpTo(cur, original, done, findChar, replaceChar)
    requires done <= p < |cur| && cur[p] == findChar && forall j :: done <= j < p ==> cur[j] != findChar
    ensures ReplacedUpTo(cur[p := replaceChar], original, p + 1, findChar, replaceChar)
    ensures multiset(original[..p + 1])[findChar] == multiset(original[..done])[findChar] + 1
  {
    CountStep(original, done, p, findChar);
  }

  /** With no `findChar` from `done` on, every occurrence has been replaced and counted. */
  lemma ReplaceDone(cur: seq<char>, original: seq<char>, done: nat, findChar: char, replaceChar: char)
    requires ReplacedUpTo(cur, original, done, findChar, replaceChar)
    requires forall j :: done <= j < |cur| ==> cur[j] != findChar
    ensures cur == CharsReplaced(original, findChar, replaceChar)
    ensures multiset(original[..done])[findChar] == multiset(original)[findChar]
  {
    CountDone(original, done, findChar);
  }

  /**
   * `replaceAllChar`, with the search resumed after the character just
   * written (`find_first_of(findChar, position + 1)`) rather than restarted
   * from the beginning as the source does; for `findChar != replaceChar` the
   * source's loop ends with the same string after as many passes as this
   * count (`DistinctCharsPasses`), and this one also ends when the characters
   * are equal. Every `findChar` becomes `replaceChar`, every other character is
   * unchanged, and the count is the number of occurrences.
   */
  method ReplaceAllChar(str: array<char>, findChar: char, replaceChar: char) returns (count: nat)
    modifies str
    ensures str[..] == CharsReplaced(old(str[..]), findChar, replaceChar)
    ensures count == multiset(old(str[..]))[findChar]
    ensures findChar != replaceChar ==> findChar !in str[..]
  {
    ghost var original := str[..];
    ghost var done := 0;
    count := 0;
    var position := FindFrom(str[..], findChar, 0);
    while position.Some?
      invariant str.Length == |original| && ReplacedUpTo(str[..], original, done, findChar, replaceChar)
      invariant position.Some? ==>
        done <= position.value < str.Length && str[position.value] == findChar
        && (forall j :: done <= j < position.value ==> str[j] != findChar)
      invariant position.None? ==> forall j :: done <= j < str.Length ==> str[j] != findChar
      invariant count == multiset(original[..done])[findChar]
      decreases str.Length - done
    {
      var p := position.value;
      ReplaceStep(str[..], original, done, p, findChar, replaceChar);
      str[p] := replaceChar;
      count := count + 1;
      done := p + 1;
      position := FindFrom(str[..], findChar, p + 1);
    }
    ReplaceDone(str[..], original, done, findChar, replaceChar);
  }

  /**
   * One pass of the loop of `replaceAllChar` as the source writes it: the
   * search restarts from the beginning, and `None` means no `findChar` is
   * left, so the loop exits.
   */
  function ReplaceFirst(s: seq<char>, findChar: char, replaceChar: char): (r: Option<seq<char>>)
    ensures r.None? <==> findChar !in s
    ensures r.Some? ==> |r.value| == |s|
    ensures r.Some? && findChar != replaceChar ==> multiset(r.value)[findChar] == multiset(s)[findChar] - 1
  {
    match FindFirstOf(s, findChar)
    case None => None
    case Some(p) => Some(s[p := replaceChar])
  }

  /**
   * With `findChar == replaceChar` and the character present, a pass leaves
   * the string as it was, with the character still there: the loop of the
   * source never exits.
   */
  lemma SameCharNeverFinishes(s: seq<char>, c: char)
    requires c in s
    ensures ReplaceFirst(s, c, c) == Some(s) && c in s
  {
    var p := FindFirstOf(s, c).value;
    assert s[p := c] == s;
  }

  /**
   * The string after `n` passes of the source's loop, `None` when the loop
   * has exited before the `n`-th pass.
   */
  function Passes(s: seq<char>, findChar: char, replaceChar: char, n: nat): (r: Option<seq<char>>)
    ensures r.Some? ==> |r.value| == |s|
    decreases n
  {
    if n == 0 then Some(s)
    else match ReplaceFirst(s, findChar, replaceChar)
      case None => None
      case Some(t) => Passes(t, findChar, replaceChar, n - 1)
  }

  /**
   * For distinct characters the loop as the source writes it makes one pass
   * per occurrence, each finding a `findChar`, and then exits with every
   * occurrence replaced: the string `ReplaceAllChar` computes, after as many
   * passes as the count it returns.
   */
  lemma {:induction false} DistinctCharsPasses(s: seq<char>, findChar: char, replaceChar: char)
    requires findChar != replaceChar
    ensures forall m :: 0 <= m < multiset(s)[findChar] ==>
      Passes(s, findChar, replaceChar, m).Some? && findChar in Passes(s, findChar, replaceChar, m).value
    ensures Passes(s, findChar, replaceChar, multiset(s)[findChar]) == Some(CharsReplaced(s, findChar, replaceChar))
    ensures ReplaceFirst(CharsReplaced(s, findChar, replaceChar), findChar, replaceChar).None?
    decreases multiset(s)[findChar]
  {
    ReplacedHasNone(s, findChar, replaceChar);
    if findChar in s {
      var t := DistinctPass(s, findChar, replaceChar);
      DistinctCharsPasses(t, findChar, replaceChar);
      forall m | 0 < m < multiset(s)[findChar]
        ensures Passes(s, findChar, replaceChar, m) == Passes(t, findChar, replaceChar, m - 1)
      {
      }
    } else {
      assert CharsReplaced(s, findChar, replaceChar) == s;
    }
  }

  /** For distinct characters no `findChar` is left once all are replaced. */
  lemma ReplacedHasNone(s: seq<char>, findChar: char, replaceChar: char)
    requires findChar != replaceChar
    ensures findChar !in CharsReplaced(s, findChar, replaceChar)
  {
    var done := CharsReplaced(s, findChar, replaceChar);
    forall j | 0 <= j < |done| ensures done[j] != findChar {}
  }

  /** For distinct characters a pass replaces one occurrence and leaves the final result as it was. */
  lemma DistinctPass(s: seq<char>, findChar: char, replaceChar: char) returns (t: seq<char>)
    requires findChar != replaceChar && findChar in s
    ensures ReplaceFirst(s, findChar, replaceChar) == Some(t)
    ensures multiset(t)[findChar] == multiset(s)[findChar] - 1
    ensures CharsReplaced(t, findChar, replaceChar) == CharsReplaced(s, findChar, replaceChar)
  {
    var p := FindFirstOf(s, findChar).value;
    t := s[p := replaceChar];
  }

  /**
   * What `replaceExtension` keeps of a file name: everything up to and
   * including the last dot, or the whole name followed by a dot when it has
   * no dot.
   */
  function ExtensionStem(filename: string): (stem: string)
    ensures '.' in filename ==>
      0 < |stem| <= |filename| && stem == filename[..|stem|] && stem[|stem| - 1] == '.' && '.' !in filename[|stem|..]
    ensures '.' !in filename ==> stem == filename + "."
  {
    match FindLastOf(filename, {'.'})
    case None => filename + "."
    case Some(lastDot) => filename[..lastDot + 1]
  }

  /** `replaceExtension`: erase what follows the last dot (or append a dot), then append `ext`. */
  method ReplaceExtension(filename: string, ext: CString) returns (result: string)
    ensures result == ExtensionStem(filename) + ext
  {
    result := filename;
    var lastDot := FindLastOf(result, {'.'});
    if lastDot.None? {
      result := result + ".";
    } else {
      result := result[..lastDot.value + 1];
    }
    result := result + ext;
  }

  /** After `replaceExtension(f, ext)` the name has the extension `.ext`, as `hasExtension` sees it. */
  lemma ReplacedHasExtension(filename: string, ext: CString)
    requires '\0' !in filename
    ensures var r := ExtensionStem(filename) + ext;
      |"." + ext| <= |r| && HasExtension(r, "." + ext)
  {
    var stem := ExtensionStem(filename);
    var r := stem + ext;
    assert '\0' !in stem;
    assert r[|r| - |"." + ext|..] == "." + ext by {
      assert r[|r| - |"." + ext|..] == stem[|stem| - 1..] + ext;
    }
  }

  /** Replacing an extension by one without a dot a second time changes nothing. */
  lemma ReplaceExtensionIdempotent(filename: string, ext: CString)
    requires '.' !in ext
    ensures ExtensionStem(ExtensionStem(filename) + ext) + ext == ExtensionStem(filename) + ext
  {
    var stem := ExtensionStem(filename);
    var r := stem + ext;
    var stem' := ExtensionStem(r);
    assert r[|stem| - 1] == '.';
    assert |stem'| == |stem|;
    assert stem' == r[..|stem|] == stem;
  }

  /*
   * Trailing blanks.
   */

  /** The characters `deleteTrailingWhitespace` removes. */
  predicate IsBlank(c: char) {
    c == ' ' || c == '\t'
  }

  predicate AllBlank(s: string) {
    forall i :: 0 <= i < |s| ==> IsBlank(s[i])
  }

  /** `s` without its maximal trailing run of spaces and tabs. */
  function TrailingBlanksTrimmed(s: string): (t: string)
    ensures |t| <= |s| && t == s[..|t|] && AllBlank(s[|t|..])
    ensures |t| > 0 ==> !IsBlank(t[|t| - 1])
  {
    if s == [] || !IsBlank(s[|s| - 1]) then s
    else
      var t := TrailingBlanksTrimmed(s[..|s| - 1]);
      assert s[|t|..] == s[..|s| - 1][|t|..] + [s[|s| - 1]];
      t
  }

  /** A prefix that leaves only blanks and ends in a non-blank is the trimmed string. */
  lemma TrimmedUnique(s: string, n: nat)
    requires 0 < n <= |s| && !IsBlank(s[n - 1]) && AllBlank(s[n..])
    ensures TrailingBlanksTrimmed(s) == s[..n]
  {
    var t := TrailingBlanksTrimmed(s);
    assert |t| == n;
  }

  /** Trimming trailing blanks twice is trimming once. */
  lemma TrimIdempotent(s: string)
    ensures TrailingBlanksTrimmed(TrailingBlanksTrimmed(s)) == TrailingBlanksTrimmed(s)
  {
    var t := TrailingBlanksTrimmed(s);
    if t != [] {
      assert t[|t|..] == [];
      TrimmedUnique(t, |t|);
      assert t[..|t|] == t;
    }
  }

  /** The error `std::string::at` raises for a position past the end. */
  datatype AtError = OutOfRange

  /**
   * `deleteTrailingWhitespace`: walks `last` down from `size() - 1` over
   * spaces and tabs, then erases after it. When the string is empty or only
   * blanks, `last` reaches `npos` and `at` throws.
   */
  method DeleteTrailingWhitespace(str: string) returns (r: Result<string, AtError>)
    ensures r.Ok? <==> exists i :: 0 <= i < |str| && !IsBlank(str[i])
    ensures r.Ok? ==> r.value == TrailingBlanksTrimmed(str) && r.value != []
  {
    if |str| == 0 {
      return Err(OutOfRange);
    }
    var last := |str| - 1;
    while IsBlank(str[last])
      invariant 0 <= last < |str|
      invariant AllBlank(str[last + 1..])
      decreases last
    {
      if last == 0 {
        assert AllBlank(str);
        return Err(OutOfRange);
      }
      last := last - 1;
    }
    TrimmedUnique(str, last + 1);
    r := Ok(str[..last + 1]);
  }

  /*
   * Upper-case copy.
   */

  /**
   * `strcpy_all_caps`: NULL gives NULL; otherwise a new buffer holding the
   * upper-cased copy and its terminating NUL, upper-cased in place up to that
   * NUL.
   */
  method StrcpyAllCaps(original: Option<CString>) returns (copy: Option<array<char>>)
    ensures original.None? <==> copy.None?
    ensures copy.Some? ==> fresh(copy.value) && copy.value[..] == UpperString(original.value) + ['\0']
  {
    if original.None? {
      return None;
    }
    var s := original.value;
    var newStr := new char[|s| + 1](i requires 0 <= i <= |s| => if i < |s| then s[i] else '\0');
    var i := 0;
    while newStr[i] != '\0'
      invariant 0 <= i <= |s|
      invariant newStr.Length == |s| + 1
      invariant forall j :: 0 <= j < i ==> newStr[j] == ToUpper(s[j])
      invariant forall j :: i <= j < |s| ==> newStr[j] == s[j]
      invariant newStr[|s|] == '\0'
      decreases |s| - i
    {
      assert i < |s|;
      newStr[i] := ToUpper(newStr[i]);
      i := i + 1;
    }
    assert i == |s|;
    assert newStr[..] == UpperString(s) + ['\0'];
    copy := Some(newStr);
  }
}
