/**
 * The generator and the code it generates, put together: the tables are
 * emitted, compiled (each literal becomes the C string its `const char*`
 * designates), loaded by `initialize()`, and queried. For well-formed input the accession written
 * for a term leads `cvTermInfo` back to that term's code, accession, name,
 * definition and parents.
 */
module CvRoundTrip {
  import opened Wrappers
  import opened Ascii
  import opened CvIds
  import opened CvEscape
  import opened CvVersion
  import opened CvTables
  import opened CvRuntime
  import opened Seqs

  /*
   * What the C++ compiler makes of the emitted literals.
   */

  /**
   * The string the generated program holds for a literal whose body is
   * `text`: the C string its `const char*` designates, that is the literal's
   * value up to its first NUL. A literal that does not compile leaves no
   * program at all; the empty string stands in for it here.
   */
  function CStringOf(text: string): CString {
    match CompileLiteral(text)
    case Some(v) => UpToNul(v)
    case None => []
  }

  /** Plain text is held unchanged. */
  lemma PlainCString(text: string)
    requires PlainText(text)
    ensures CStringOf(text) == text
  {
    PlainTextCompiles(text);
  }

  function CompileInfoRow(row: TermInfoRow): TermInfoRow {
    TermInfoRow(row.cvid, CStringOf(row.id), CStringOf(row.name), CStringOf(row.def))
  }

  function CompileSynonymRow(row: CvidStringPair): CvidStringPair {
    CvidStringPair(row.first, CStringOf(row.second))
  }

  function CompileCvRow(row: CvRow): CvRow {
    CvRow(CStringOf(row.prefix), CStringOf(row.version))
  }

  /** The tables with every string literal replaced by the string it gives; the relation tables hold no string. */
  function CompileTables(t: Tables): (r: Tables)
    ensures |r.termInfos| == |t.termInfos| && |r.relationsExactSynonym| == |t.relationsExactSynonym|
    ensures |r.cvRows| == |t.cvRows| && |r.oboPrefixes| == |t.oboPrefixes|
    ensures forall j :: 0 <= j < |t.termInfos| ==> r.termInfos[j] == CompileInfoRow(t.termInfos[j])
    ensures forall j :: 0 <= j < |t.relationsExactSynonym| ==>
      r.relationsExactSynonym[j] == CompileSynonymRow(t.relationsExactSynonym[j])
    ensures forall j :: 0 <= j < |t.cvRows| ==> r.cvRows[j] == CompileCvRow(t.cvRows[j])
    ensures forall j :: 0 <= j < |t.oboPrefixes| ==> r.oboPrefixes[j] == CStringOf(t.oboPrefixes[j])
    ensures r.relationsIsA == t.relationsIsA && r.relationsPartOf == t.relationsPartOf
  {
    Tables(
      seq(|t.termInfos|, j requires 0 <= j < |t.termInfos| => CompileInfoRow(t.termInfos[j])),
      t.relationsIsA,
      t.relationsPartOf,
      seq(|t.relationsExactSynonym|, j requires 0 <= j < |t.relationsExactSynonym| => CompileSynonymRow(t.relationsExactSynonym[j])),
      seq(|t.cvRows|, j requires 0 <= j < |t.cvRows| => CompileCvRow(t.cvRows[j])),
      seq(|t.oboPrefixes|, j requires 0 <= j < |t.oboPrefixes| => CStringOf(t.oboPrefixes[j])))
  }

  /** The database the generated program holds after `initialize()`. */
  function GeneratedDatabase(obos: seq<Obo>): CvDatabase {
    Initialized(CompileTables(GeneratedTables(obos)))
  }

  /** The largest code the 32-bit enumeration holds. */
  const MaxCvid: nat := 0x7FFF_FFFF

  /**
   * Input for which the generated library compiles and the accession round
   * trip holds: prefixes that are distinct, plain (see `PlainText`), free of
   * `:` and able to begin an identifier, each term carrying its ontology's
   * prefix, ids below the block size and distinct within their ontology,
   * codes that fit the enumeration, names and definitions without `"` or
   * line breaks (their literals would not compile) whose backslashes all come
   * before one of `! : , ( ) [ ] { }`, and no enumerator of `enum CVID` declared twice (`a b` and
   * `a-b` both become `MS_a_b`, an `MS` alias may repeat a name, and the
   * prefix `CVID` with the name `Unknown` repeats `CVID_Unknown`).
   */
  predicate WellFormed(obos: seq<Obo>) {
    (forall k :: 0 <= k < |obos| ==> ':' !in obos[k].prefix && PlainText(obos[k].prefix) && IdentifierPrefix(obos[k].prefix))
    && Distinct(Enumerators(obos))
    && (forall k, k' :: 0 <= k < k' < |obos| ==> obos[k].prefix != obos[k'].prefix)
    && (forall k, i :: 0 <= k < |obos| && 0 <= i < |obos[k].terms| ==> TermFits(obos[k].terms[i], obos[k].prefix, k))
    && (forall k, i, i' :: 0 <= k < |obos| && 0 <= i < i' < |obos[k].terms| ==> obos[k].terms[i].id != obos[k].terms[i'].id)
  }

  predicate TermFits(t: Term, prefix: string, k: nat) {
    t.prefix == prefix && t.id < EnumBlockSize && EnumValue(t.id, k) <= MaxCvid
    && OboEscapesOnly(t.name) && OboEscapesOnly(t.def)
    && NoQuoteOrLineBreak(t.name) && NoQuoteOrLineBreak(t.def)
  }

  /** Two `MS` terms named `a b` and `a-b` would both declare `MS_a_b`: such input is not well-formed. */
  lemma CollidingNamesExcluded()
    ensures !WellFormed([Obo("MS", [], [Term("MS", 1, "a b", "", [], [], []), Term("MS", 2, "a-b", "", [], [], [])])])
  {
    var ts := [Term("MS", 1, "a b", "", [], [], []), Term("MS", 2, "a-b", "", [], [], [])];
    var obos := [Obo("MS", [], ts)];
    var f := EnumeratorsOf(obos);
    var n1, n2 := AllowableChars("a b"), AllowableChars("a-b");
    assert n1[0] == 'a' && n1[1] == '_' && n1[2] == 'b';
    assert n2[0] == 'a' && n2[1] == '_' && n2[2] == 'b';
    assert n1 == n2;
    assert f(ts[0], 0) == TermEnumerators(ts[0], "MS");
    assert f(ts[1], 0) == TermEnumerators(ts[1], "MS");
    assert TermEnumerators(ts[0], "MS") == [EnumName("MS", "a b")];
    assert TermEnumerators(ts[1], "MS") == [EnumName("MS", "a-b")];
    assert EnumName("MS", "a b") == EnumName("MS", "a-b");
    assert ts[..1][..0] == [] && ts[..2] == ts;
    assert PerTermIn(ts[..1], 0, f) == PerTermIn([], 0, f) + f(ts[0], 0);
    assert PerTermIn(ts, 0, f) == PerTermIn(ts[..1], 0, f) + f(ts[1], 0);
    assert obos[..0] == [];
    assert PerTerm(obos, f) == PerTerm([], f) + PerTermIn(ts, 0, f);
    var e := Enumerators(obos);
    assert e == ["CVID_Unknown", EnumName("MS", "a b"), EnumName("MS", "a b")];
    assert e[1] == e[2];
  }

  /**
   * In well-formed input no term declares `CVID_Unknown` again: not a term
   * of an ontology with prefix `CVID` named `Unknown`, nor an `MS` alias.
   */
  lemma NoTermDeclaresUnknown(obos: seq<Obo>, k: int, i: int)
    requires WellFormed(obos) && 0 <= k < |obos| && 0 <= i < |obos[k].terms|
    ensures "CVID_Unknown" !in TermEnumerators(obos[k].terms[i], obos[k].prefix)
  {
    var f := EnumeratorsOf(obos);
    var e := Enumerators(obos);
    HeadNotInTail(e);
    assert e[1..] == PerTerm(obos, f);
    PerTermMembership(obos, f, "CVID_Unknown");
    assert f(obos[k].terms[i], k) == TermEnumerators(obos[k].terms[i], obos[k].prefix);
  }

  /** In well-formed input a code belongs to one term only. */
  lemma CodeDeterminesTerm(obos: seq<Obo>, k: int, i: int, k': int, i': int)
    requires WellFormed(obos)
    requires 0 <= k < |obos| && 0 <= i < |obos[k].terms|
    requires 0 <= k' < |obos| && 0 <= i' < |obos[k'].terms|
    requires EnumValue(obos[k].terms[i].id, k) == EnumValue(obos[k'].terms[i'].id, k')
    ensures k == k' && i == i'
  {
    assert TermFits(obos[k].terms[i], obos[k].prefix, k);
    assert TermFits(obos[k'].terms[i'], obos[k'].prefix, k');
    EnumValueInjective(obos[k].terms[i].id, k, obos[k'].terms[i'].id, k');
  }

  /** A record that is the only one stored under its code survives the later writes to other codes. */
  lemma {:induction false} LoadTermInfosUniform(rows: seq<TermInfoRow>, c: int, row: TermInfoRow)
    requires row in rows && row.cvid == c
    requires forall j :: 0 <= j < |rows| && rows[j].cvid == c ==> rows[j] == row
    ensures c in LoadTermInfos(rows) && LoadTermInfos(rows)[c] == RowInfo(row)
    decreases |rows|
  {
    var init := rows[..|rows| - 1];
    if rows[|rows| - 1] != row {
      assert row in init;
      forall j | 0 <= j < |init| && init[j].cvid == c ensures init[j] == row {
        assert init[j] == rows[j];
      }
      LoadTermInfosUniform(init, c, row);
    }
  }

  /** The accession of a term, as stored in the compiled term table, is unchanged by compilation. */
  lemma IdStringCompiles(prefix: string, id: nat)
    requires PlainText(prefix)
    ensures CStringOf(IdString(prefix, id)) == IdString(prefix, id)
  {
    var s := IdString(prefix, id);
    assert PlainText(s) by {
      forall j | 0 <= j < |s| ensures PlainChar(s[j]) {
        if j < |prefix| {
          assert s[j] == s[..|prefix|][j];
        } else if j > |prefix| {
          assert s[j] == s[|prefix| + 1..][j - |prefix| - 1];
          assert IsDigit(s[j]);
        }
      }
    }
    PlainCString(s);
  }

  /** The compiled `oboPrefixes_` are the ontology prefixes. */
  lemma CompiledPrefixes(obos: seq<Obo>)
    requires WellFormed(obos)
    ensures CompileTables(GeneratedTables(obos)).oboPrefixes == OboPrefixes(obos)
  {
    var ps := CompileTables(GeneratedTables(obos)).oboPrefixes;
    forall k | 0 <= k < |obos| ensures ps[k] == obos[k].prefix {
      PlainCString(obos[k].prefix);
    }
  }

  /** The position `find_if` gives for a term's prefix is its ontology's position. */
  lemma PrefixPosition(obos: seq<Obo>, k: int)
    requires WellFormed(obos) && 0 <= k < |obos|
    ensures IndexOf(OboPrefixes(obos), obos[k].prefix) == Some(k)
  {
    var ps := OboPrefixes(obos);
    assert ps[k] == obos[k].prefix;
  }

  /** The accession of the term splits into its prefix and its number. */
  lemma IdStringSplits(prefix: string, id: nat)
    requires ':' !in prefix && id < EnumBlockSize
    ensures var tokens := Split(IdString(prefix, id), ':');
      |tokens| == 2 && tokens[0] == prefix && StringToCvid(tokens[1]) == Ok(id)
  {
    var s := IdString(prefix, id);
    var tail := s[|prefix| + 1..];
    assert s == s[..|prefix|] + [s[|prefix|]] + tail;
    assert ':' !in tail by {
      forall j | 0 <= j < |tail| ensures tail[j] != ':' {
        assert IsDigit(tail[j]);
      }
    }
    SplitAtOnlySeparator(prefix, tail, ':');
  }

  /** `cvTermInfo` of a generated accession reads the record of the code recomputed from its prefix's position. */
  lemma IdStringLookup(db: CvDatabase, prefix: string, id: nat, k: nat)
    requires ':' !in prefix && '\0' !in prefix && id < EnumBlockSize
    requires IndexOf(db.oboPrefixes, prefix) == Some(k)
    ensures TermInfoById(db, IdString(prefix, id)) == Ok(InfoAt(db.infoMap, ToCvid(k * EnumBlockSize + id)))
  {
    IdStringSplits(prefix, id);
    var tokens := Split(IdString(prefix, id), ':');
    assert tokens == [tokens[0], tokens[1]];
    TermInfoByIdTokens(db, IdString(prefix, id), prefix, tokens[1]);
  }

  /** The row of a term is in the term table. */
  lemma InfoRowPresent(obos: seq<Obo>, k: int, i: int) returns (j: int)
    requires 0 <= k < |obos| && 0 <= i < |obos[k].terms|
    ensures 0 < j < |TermInfoTable(obos)| && TermInfoTable(obos)[j] == InfoRow(obos[k].terms[i], k)
  {
    var t := obos[k].terms[i];
    var gen := TermInfoTable(obos);
    PerTermMembership(obos, InfoRows, InfoRow(t, k));
    assert InfoRow(t, k) in InfoRows(t, k);
    assert InfoRow(t, k) in gen[1..];
    var j0 :| 0 <= j0 < |gen[1..]| && gen[1..][j0] == InfoRow(t, k);
    j := j0 + 1;
  }

  /** Every row of the term table after the first is the row of some term. */
  lemma InfoRowOrigin(obos: seq<Obo>, j: int) returns (k: int, i: int)
    requires 0 < j < |TermInfoTable(obos)|
    ensures 0 <= k < |obos| && 0 <= i < |obos[k].terms| && TermInfoTable(obos)[j] == InfoRow(obos[k].terms[i], k)
  {
    var gen := TermInfoTable(obos);
    var g := gen[j];
    assert g == gen[1..][j - 1];
    PerTermMembership(obos, InfoRows, g);
    k, i :| 0 <= k < |obos| && 0 <= i < |obos[k].terms| && g in InfoRows(obos[k].terms[i], k);
  }

  /** In well-formed input the only row of the term table with a term's code is that term's row. */
  lemma InfoRowOfCode(obos: seq<Obo>, k: int, i: int, j: int)
    requires WellFormed(obos) && 0 <= k < |obos| && 0 <= i < |obos[k].terms|
    requires 0 <= j < |TermInfoTable(obos)| && TermInfoTable(obos)[j].cvid == EnumValue(obos[k].terms[i].id, k)
    ensures TermInfoTable(obos)[j] == InfoRow(obos[k].terms[i], k)
  {
    if j > 0 {
      var k', i' := InfoRowOrigin(obos, j);
      CodeDeterminesTerm(obos, k, i, k', i');
    }
  }

  /** Compiling a term's row gives back its name and definition, as C strings. */
  lemma CompiledInfoRow(t: Term, prefix: string, k: nat)
    requires TermFits(t, prefix, k) && PlainText(prefix)
    ensures CompileInfoRow(InfoRow(t, k)) == TermInfoRow(EnumValue(t.id, k), IdString(t.prefix, t.id), UpToNul(t.name), UpToNul(t.def))
  {
    IdStringCompiles(t.prefix, t.id);
    CompileEscaped(t.name);
    CompileEscaped(t.def);
  }

  /** The record `initialize()` stores under a term's code, before the relation loops, is that term's. */
  lemma CompiledInfoRowOfCode(obos: seq<Obo>, k: int, i: int)
    requires WellFormed(obos) && 0 <= k < |obos| && 0 <= i < |obos[k].terms|
    ensures var t := obos[k].terms[i];
      var rows := CompileTables(GeneratedTables(obos)).termInfos;
      InfoAt(LoadTermInfos(rows), EnumValue(t.id, k)) ==
        CvTermInfo(EnumValue(t.id, k), IdString(t.prefix, t.id), UpToNul(t.name), UpToNul(t.def), [], [], [])
  {
    var t := obos[k].terms[i];
    var c := EnumValue(t.id, k);
    var gen := TermInfoTable(obos);
    var rows := CompileTables(GeneratedTables(obos)).termInfos;
    assert TermFits(t, obos[k].prefix, k);
    CompiledInfoRow(t, obos[k].prefix, k);
    var row := CompileInfoRow(InfoRow(t, k));
    var j0 := InfoRowPresent(obos, k, i);
    assert rows[j0] == row;
    forall j | 0 <= j < |rows| && rows[j].cvid == c ensures rows[j] == row {
      assert rows[j] == CompileInfoRow(gen[j]);
      InfoRowOfCode(obos, k, i, j);
    }
    LoadTermInfosUniform(rows, c, row);
  }

  /**
   * The accession round trip: the accession the term table holds for a term,
   * passed to `cvTermInfo`, gives back that term's code (`enumValue`), its
   * accession, and its name and definition up to their first NUL (all of them
   * when they hold none).
   */
  lemma TermInfoRoundTrip(obos: seq<Obo>, k: int, i: int)
    requires WellFormed(obos) && 0 <= k < |obos| && 0 <= i < |obos[k].terms|
    ensures var t := obos[k].terms[i];
      var r := TermInfoById(GeneratedDatabase(obos), IdString(t.prefix, t.id));
      r.Ok? && r.value.cvid == EnumValue(t.id, k) && r.value.id == IdString(t.prefix, t.id)
      && r.value.name == UpToNul(t.name) && r.value.def == UpToNul(t.def)
      && ('\0' !in t.name ==> r.value.name == t.name) && ('\0' !in t.def ==> r.value.def == t.def)
  {
    var t := obos[k].terms[i];
    var db := GeneratedDatabase(obos);
    var tables := CompileTables(GeneratedTables(obos));
    var c := EnumValue(t.id, k);
    assert TermFits(t, obos[k].prefix, k);
    CompiledPrefixes(obos);
    PrefixPosition(obos, k);
    PlainTextCompiles(t.prefix);
    IdStringLookup(db, t.prefix, t.id, k);
    assert ToCvid(k * EnumBlockSize + t.id) == c;
    CompiledInfoRowOfCode(obos, k, i);
    InitializedRecord(tables, c);
  }

  /** A row whose strings are plain compiles to itself. */
  lemma PlainRowCompiles(row: TermInfoRow)
    requires PlainText(row.id) && PlainText(row.name) && PlainText(row.def)
    ensures CompileInfoRow(row) == row
  {
    PlainCString(row.id);
    PlainCString(row.name);
    PlainCString(row.def);
  }

  /** Only the first row of the term table carries `CVID_Unknown`. */
  lemma UnknownRowOnlyFirst(obos: seq<Obo>, j: int)
    requires 0 < j < |TermInfoTable(obos)|
    ensures TermInfoTable(obos)[j].cvid != CvidUnknown
  {
    var k, i := InfoRowOrigin(obos, j);
  }

  /** The strings of the `CVID_Unknown` row are plain, so it compiles to itself. */
  lemma UnknownRowCompiles()
    ensures CompileInfoRow(UnknownTermInfoRow) == UnknownTermInfoRow
  {
    PlainRowCompiles(UnknownTermInfoRow);
  }

  /** The record `initialize()` stores under `CVID_Unknown`, before the relation loops, is that of the first row. */
  lemma CompiledUnknownRow(obos: seq<Obo>)
    ensures var rows := CompileTables(GeneratedTables(obos)).termInfos;
      InfoAt(LoadTermInfos(rows), CvidUnknown) == RowInfo(UnknownTermInfoRow)
  {
    var gen := TermInfoTable(obos);
    var rows := CompileTables(GeneratedTables(obos)).termInfos;
    var row := UnknownTermInfoRow;
    UnknownRowCompiles();
    assert rows[0] == CompileInfoRow(gen[0]);
    forall j | 0 <= j < |rows| && rows[j].cvid == CvidUnknown ensures rows[j] == row {
      if j > 0 {
        UnknownRowOnlyFirst(obos, j);
      }
    }
    LoadTermInfosUniform(rows, CvidUnknown, row);
  }

  /** An accession whose prefix names no input ontology gives the `CVID_Unknown` record. */
  lemma UnknownPrefixGivesUnknown(obos: seq<Obo>, prefix: string, number: string)
    requires WellFormed(obos)
    requires ':' !in prefix && ':' !in number
    requires forall k :: 0 <= k < |obos| ==> obos[k].prefix != UpToNul(prefix)
    ensures var r := TermInfoById(GeneratedDatabase(obos), prefix + ":" + number);
      r.Ok? && r.value.cvid == CvidUnknown && r.value.name == "CVID_Unknown" && r.value.id == "??:0000000"
  {
    var db := GeneratedDatabase(obos);
    var tables := CompileTables(GeneratedTables(obos));
    CompiledPrefixes(obos);
    assert UpToNul(prefix) !in db.oboPrefixes;
    TermInfoByIdUnknownPrefix(db, prefix, number);
    CompiledUnknownRow(obos);
    InitializedRecord(tables, CvidUnknown);
  }

  /** `cvids()` lists `CVID_Unknown` and then the code of every term, in input order. */
  lemma GeneratedCvids(obos: seq<Obo>)
    ensures GeneratedDatabase(obos).cvids == [CvidUnknown] + PerTerm(obos, TermCode)
    ensures forall k, i :: 0 <= k < |obos| && 0 <= i < |obos[k].terms| ==>
      EnumValue(obos[k].terms[i].id, k) in GeneratedDatabase(obos).cvids
  {
    var gen := GeneratedTables(obos);
    CompiledCvids(gen);
    RowCvidsAppend([UnknownTermInfoRow], PerTerm(obos, InfoRows));
    RowCvidsOfOntologies(obos);
    assert RowCvids([UnknownTermInfoRow]) == [CvidUnknown] by {
      assert [UnknownTermInfoRow][..0] == [];
    }
    forall k, i | 0 <= k < |obos| && 0 <= i < |obos[k].terms|
      ensures EnumValue(obos[k].terms[i].id, k) in GeneratedDatabase(obos).cvids
    {
      PerTermHas(obos, TermCode, EnumValue(obos[k].terms[i].id, k), k, i);
    }
  }

  /** The one entry a term contributes to `cvids_`. */
  function TermCode(t: Term, k: nat): seq<int> {
    [EnumValue(t.id, k)]
  }

  lemma {:induction false} RowCvidsAppend(a: seq<TermInfoRow>, b: seq<TermInfoRow>)
    ensures RowCvids(a + b) == RowCvids(a) + RowCvids(b)
    decreases |b|
  {
    if b == [] {
      assert a + b == a;
    } else {
      var n := |b| - 1;
      assert (a + b)[..|a + b| - 1] == a + b[..n];
      RowCvidsAppend(a, b[..n]);
    }
  }

  /** The codes of one ontology's term-info rows are its terms' codes, in order. */
  lemma {:induction false} RowCvidsOfTerms(terms: seq<Term>, k: nat)
    ensures RowCvids(PerTermIn(terms, k, InfoRows)) == PerTermIn(terms, k, TermCode)
    decreases |terms|
  {
    if terms != [] {
      var n := |terms| - 1;
      RowCvidsOfTerms(terms[..n], k);
      RowCvidsAppend(PerTermIn(terms[..n], k, InfoRows), InfoRows(terms[n], k));
      assert InfoRows(terms[n], k)[..0] == [];
    }
  }

  /** The codes of all term-info rows after the first are the terms' codes, in order. */
  lemma {:induction false} RowCvidsOfOntologies(obos: seq<Obo>)
    ensures RowCvids(PerTerm(obos, InfoRows)) == PerTerm(obos, TermCode)
    decreases |obos|
  {
    if obos != [] {
      var n := |obos| - 1;
      RowCvidsOfOntologies(obos[..n]);
      RowCvidsOfTerms(obos[n].terms, n);
      RowCvidsAppend(PerTerm(obos[..n], InfoRows), PerTermIn(obos[n].terms, n, InfoRows));
    }
  }

  /** Compiling the literals leaves the codes of the term-info rows alone. */
  lemma CompiledCvids(t: Tables)
    ensures RowCvids(CompileTables(t).termInfos) == RowCvids(t.termInfos)
  {
    RowCvidsContents(t.termInfos);
    RowCvidsContents(CompileTables(t).termInfos);
  }

  /**
   * `cv(prefix)` for an input ontology: its id is the prefix and its version
   * the scanned header version (as the emitted literal gives it: unchanged
   * when plain); full name and URI are filled in for MS and UO only.
   */
  lemma GeneratedCv(obos: seq<Obo>, k: int)
    requires WellFormed(obos) && 0 <= k < |obos|
    ensures var cv := CvOf(GeneratedDatabase(obos), obos[k].prefix);
      cv.id == obos[k].prefix && cv.version == CStringOf(HeaderVersion(obos[k].header))
      && (PlainText(HeaderVersion(obos[k].header)) ==> cv.version == HeaderVersion(obos[k].header))
      && cv.fullName == CvAt(BaseCvMap, obos[k].prefix).fullName
      && cv.uri == CvAt(BaseCvMap, obos[k].prefix).uri
  {
    var rows := CompileTables(GeneratedTables(obos)).cvRows;
    PlainCString(obos[k].prefix);
    forall j | k < j < |rows| ensures rows[j].prefix != rows[k].prefix {
      PlainCString(obos[j].prefix);
    }
    if PlainText(HeaderVersion(obos[k].header)) {
      PlainCString(HeaderVersion(obos[k].header));
    }
    LoadCvsAt(BaseCvMap, rows, k);
    LoadCvsKeepsNames(BaseCvMap, rows, obos[k].prefix);
  }

  /** MS and UO always have their full name and URI, whatever the input. */
  lemma GeneratedMsAndUo(obos: seq<Obo>)
    ensures CvOf(GeneratedDatabase(obos), "MS").fullName == MsFullName
    ensures CvOf(GeneratedDatabase(obos), "MS").uri == MsUri
    ensures CvOf(GeneratedDatabase(obos), "UO").fullName == UoFullName
    ensures CvOf(GeneratedDatabase(obos), "UO").uri == UoUri
  {
    var rows := CompileTables(GeneratedTables(obos)).cvRows;
    LoadCvsKeepsNames(BaseCvMap, rows, "MS");
    LoadCvsKeepsNames(BaseCvMap, rows, "UO");
  }

  /** A prefix that is neither MS, UO nor an input ontology reads as an empty `CV`. */
  lemma OtherPrefixEmpty(obos: seq<Obo>, prefix: string)
    requires prefix != "MS" && prefix != "UO"
    requires forall k :: 0 <= k < |obos| ==> CStringOf(obos[k].prefix) != prefix
    ensures CvEmpty(CvOf(GeneratedDatabase(obos), prefix))
  {
    var rows := CompileTables(GeneratedTables(obos)).cvRows;
    LoadCvsKeepsNames(BaseCvMap, rows, prefix);
    LoadCvsUntouched(BaseCvMap, rows, prefix);
  }

  /*
   * Parents and synonyms: the relation tables, loaded by `initialize()`,
   * give each term's record exactly the parents and synonyms of that term.
   */

  /** The codes of a term's parents, in the term's order. */
  function ParentCodes(t: Term, k: nat, rel: Relation): seq<int> {
    var ps := Parents(t, rel);
    seq(|ps|, j requires 0 <= j < |ps| => EnumValue(ps[j], k) as int)
  }

  lemma {:induction false} SecondsOfAppend(a: seq<CvidPair>, b: seq<CvidPair>, c: int)
    ensures SecondsOf(a + b, c) == SecondsOf(a, c) + SecondsOf(b, c)
    decreases |b|
  {
    if b == [] {
      assert a + b == a;
    } else {
      assert (a + b)[..|a + b| - 1] == a + b[..|b| - 1];
      SecondsOfAppend(a, b[..|b| - 1], c);
    }
  }

  /** Pairs that all have child `d` contribute their parents to `d` and nothing to any other code. */
  lemma {:induction false} SecondsOfUniform(pairs: seq<CvidPair>, c: int, d: int)
    requires forall j :: 0 <= j < |pairs| ==> pairs[j].first == d
    ensures SecondsOf(pairs, c) == if d == c then seq(|pairs|, j requires 0 <= j < |pairs| => pairs[j].second) else []
    decreases |pairs|
  {
    if pairs != [] {
      var init := pairs[..|pairs| - 1];
      SecondsOfUniform(init, c, d);
      if d == c {
        assert seq(|pairs|, j requires 0 <= j < |pairs| => pairs[j].second)
          == seq(|init|, j requires 0 <= j < |init| => init[j].second) + [pairs[|pairs| - 1].second];
      }
    }
  }

  lemma RelationRowsOf(t: Term, k: nat, rel: Relation)
    ensures RelationRows(rel)(t, k) == ParentRows(t, k, rel)
  {
    match rel
    case IsA =>
    case PartOf =>
  }

  /** The relation rows of one term give its parent codes to its own code and nothing to others. */
  lemma SecondsOfTerm(t: Term, k: nat, rel: Relation, c: int)
    ensures SecondsOf(RelationRows(rel)(t, k), c) == if EnumValue(t.id, k) == c then ParentCodes(t, k, rel) else []
  {
    var rows := ParentRows(t, k, rel);
    RelationRowsOf(t, k, rel);
    SecondsOfUniform(rows, c, EnumValue(t.id, k));
  }

  lemma {:induction false} SecondsOfTermsNone(terms: seq<Term>, k: nat, rel: Relation, c: int)
    requires forall i :: 0 <= i < |terms| ==> EnumValue(terms[i].id, k) != c
    ensures SecondsOf(PerTermIn(terms, k, RelationRows(rel)), c) == []
    decreases |terms|
  {
    if terms != [] {
      var init := terms[..|terms| - 1];
      SecondsOfTermsNone(init, k, rel, c);
      SecondsOfAppend(PerTermIn(init, k, RelationRows(rel)), RelationRows(rel)(terms[|terms| - 1], k), c);
      SecondsOfTerm(terms[|terms| - 1], k, rel, c);
    }
  }

  lemma {:induction false} SecondsOfTermsOne(terms: seq<Term>, k: nat, rel: Relation, c: int, i: int)
    requires 0 <= i < |terms| && EnumValue(terms[i].id, k) == c
    requires forall i' :: 0 <= i' < |terms| && i' != i ==> EnumValue(terms[i'].id, k) != c
    ensures SecondsOf(PerTermIn(terms, k, RelationRows(rel)), c) == ParentCodes(terms[i], k, rel)
    decreases |terms|
  {
    var init := terms[..|terms| - 1];
    var last := terms[|terms| - 1];
    if i == |terms| - 1 {
      SecondsOfTermsNone(init, k, rel, c);
    } else {
      SecondsOfTermsOne(init, k, rel, c, i);
    }
    SecondsOfAppend(PerTermIn(init, k, RelationRows(rel)), RelationRows(rel)(last, k), c);
    SecondsOfTerm(last, k, rel, c);
  }

  lemma {:induction false} SecondsOfOntologiesNone(obos: seq<Obo>, rel: Relation, c: int)
    requires forall k, i :: 0 <= k < |obos| && 0 <= i < |obos[k].terms| ==> EnumValue(obos[k].terms[i].id, k) != c
    ensures SecondsOf(PerTerm(obos, RelationRows(rel)), c) == []
    decreases |obos|
  {
    if obos != [] {
      var n := |obos| - 1;
      var init := obos[..n];
      assert forall k :: 0 <= k < n ==> init[k] == obos[k];
      SecondsOfOntologiesNone(init, rel, c);
      SecondsOfTermsNone(obos[n].terms, n, rel, c);
      SecondsOfAppend(PerTerm(init, RelationRows(rel)), PerTermIn(obos[n].terms, n, RelationRows(rel)), c);
    }
  }

  lemma {:induction false} SecondsOfOntologiesOne(obos: seq<Obo>, rel: Relation, c: int, k: int, i: int)
    requires 0 <= k < |obos| && 0 <= i < |obos[k].terms| && EnumValue(obos[k].terms[i].id, k) == c
    requires forall k', i' ::
      (0 <= k' < |obos| && 0 <= i' < |obos[k'].terms| && EnumValue(obos[k'].terms[i'].id, k') == c) ==> k' == k && i' == i
    ensures SecondsOf(PerTerm(obos, RelationRows(rel)), c) == ParentCodes(obos[k].terms[i], k, rel)
    decreases |obos|
  {
    var n := |obos| - 1;
    var init := obos[..n];
    assert forall k' :: 0 <= k' < n ==> init[k'] == obos[k'];
    if k == n {
      SecondsOfOntologiesNone(init, rel, c);
      SecondsOfTermsOne(obos[n].terms, n, rel, c, i);
    } else {
      SecondsOfOntologiesOne(init, rel, c, k, i);
      SecondsOfTermsNone(obos[n].terms, n, rel, c);
    }
    SecondsOfAppend(PerTerm(init, RelationRows(rel)), PerTermIn(obos[n].terms, n, RelationRows(rel)), c);
  }

  /** In well-formed input no other term shares a term's code. */
  lemma CodeUnique(obos: seq<Obo>, k: int, i: int)
    requires WellFormed(obos) && 0 <= k < |obos| && 0 <= i < |obos[k].terms|
    ensures forall k', i' ::
      (0 <= k' < |obos| && 0 <= i' < |obos[k'].terms| && EnumValue(obos[k'].terms[i'].id, k') == EnumValue(obos[k].terms[i].id, k))
      ==> k' == k && i' == i
  {
    forall k', i' | 0 <= k' < |obos| && 0 <= i' < |obos[k'].terms|
      && EnumValue(obos[k'].terms[i'].id, k') == EnumValue(obos[k].terms[i].id, k)
      ensures k' == k && i' == i
    {
      CodeDeterminesTerm(obos, k, i, k', i');
    }
  }

  /**
   * `cvTermInfo(cvid).parentsIsA` and `.parentsPartOf` of a term: the codes
   * of exactly its parents, in the order of the ontology file.
   */
  lemma ParentsRoundTrip(obos: seq<Obo>, k: int, i: int, rel: Relation)
    requires WellFormed(obos) && ParentsResolve(obos, rel) && 0 <= k < |obos| && 0 <= i < |obos[k].terms|
    ensures var t := obos[k].terms[i];
      ParentsOf(InfoAt(GeneratedDatabase(obos).infoMap, EnumValue(t.id, k)), rel) == ParentCodes(t, k, rel)
  {
    var t := obos[k].terms[i];
    var c := EnumValue(t.id, k);
    CompiledInfoRowOfCode(obos, k, i);
    InitializedRecord(CompileTables(GeneratedTables(obos)), c);
    CodeUnique(obos, k, i);
    CompiledSecondsOne(obos, rel, k, i);
  }

  /** The compiled relation table gives a term whose code is its own exactly its parents' codes. */
  lemma CompiledSecondsOne(obos: seq<Obo>, rel: Relation, k: int, i: int)
    requires 0 <= k < |obos| && 0 <= i < |obos[k].terms|
    requires forall k', i' ::
      (0 <= k' < |obos| && 0 <= i' < |obos[k'].terms| && EnumValue(obos[k'].terms[i'].id, k') == EnumValue(obos[k].terms[i].id, k))
      ==> k' == k && i' == i
    ensures var tables := CompileTables(GeneratedTables(obos));
      var c := EnumValue(obos[k].terms[i].id, k);
      SecondsOf(match rel case IsA => tables.relationsIsA case PartOf => tables.relationsPartOf, c)
        == ParentCodes(obos[k].terms[i], k, rel)
  {
    SecondsOfOntologiesOne(obos, rel, EnumValue(obos[k].terms[i].id, k), k, i);
    var tables := CompileTables(GeneratedTables(obos));
    match rel
    case IsA =>
      assert tables.relationsIsA == PerTerm(obos, RelationRows(IsA));
    case PartOf =>
      assert tables.relationsPartOf == PerTerm(obos, RelationRows(PartOf));
  }

  lemma {:induction false} SynonymsOfAppend(a: seq<CvidStringPair>, b: seq<CvidStringPair>, c: int)
    ensures SynonymsOf(a + b, c) == SynonymsOf(a, c) + SynonymsOf(b, c)
    decreases |b|
  {
    if b == [] {
      assert a + b == a;
    } else {
      assert (a + b)[..|a + b| - 1] == a + b[..|b| - 1];
      SynonymsOfAppend(a, b[..|b| - 1], c);
    }
  }

  /** The synonym rows of one term give its synonyms to its own code and nothing to others. */
  lemma {:induction false} SynonymsOfTerm(t: Term, k: nat, c: int, n: nat)
    requires n <= |t.exactSynonyms|
    ensures SynonymsOf(SynonymRows(t, k)[..n], c) == if EnumValue(t.id, k) == c then t.exactSynonyms[..n] else []
    decreases n
  {
    var rows := SynonymRows(t, k);
    if n > 0 {
      assert rows[..n][..n - 1] == rows[..n - 1];
      SynonymsOfTerm(t, k, c, n - 1);
      assert t.exactSynonyms[..n] == t.exactSynonyms[..n - 1] + [t.exactSynonyms[n - 1]];
    }
  }

  lemma SynonymsOfTermAll(t: Term, k: nat, c: int)
    ensures SynonymsOf(SynonymRows(t, k), c) == if EnumValue(t.id, k) == c then t.exactSynonyms else []
  {
    SynonymsOfTerm(t, k, c, |t.exactSynonyms|);
    assert SynonymRows(t, k)[..|t.exactSynonyms|] == SynonymRows(t, k);
    assert t.exactSynonyms[..|t.exactSynonyms|] == t.exactSynonyms;
  }

  lemma {:induction false} SynonymsOfTermsNone(terms: seq<Term>, k: nat, c: int)
    requires forall i :: 0 <= i < |terms| ==> EnumValue(terms[i].id, k) != c
    ensures SynonymsOf(PerTermIn(terms, k, SynonymRows), c) == []
    decreases |terms|
  {
    if terms != [] {
      var init := terms[..|terms| - 1];
      SynonymsOfTermsNone(init, k, c);
      SynonymsOfAppend(PerTermIn(init, k, SynonymRows), SynonymRows(terms[|terms| - 1], k), c);
      SynonymsOfTermAll(terms[|terms| - 1], k, c);
    }
  }

  lemma {:induction false} SynonymsOfTermsOne(terms: seq<Term>, k: nat, c: int, i: int)
    requires 0 <= i < |terms| && EnumValue(terms[i].id, k) == c
    requires forall i' :: 0 <= i' < |terms| && i' != i ==> EnumValue(terms[i'].id, k) != c
    ensures SynonymsOf(PerTermIn(terms, k, SynonymRows), c) == terms[i].exactSynonyms
    decreases |terms|
  {
    var init := terms[..|terms| - 1];
    var last := terms[|terms| - 1];
    if i == |terms| - 1 {
      SynonymsOfTermsNone(init, k, c);
    } else {
      SynonymsOfTermsOne(init, k, c, i);
    }
    SynonymsOfAppend(PerTermIn(init, k, SynonymRows), SynonymRows(last, k), c);
    SynonymsOfTermAll(last, k, c);
  }

  lemma {:induction false} SynonymsOfOntologiesNone(obos: seq<Obo>, c: int)
    requires forall k, i :: 0 <= k < |obos| && 0 <= i < |obos[k].terms| ==> EnumValue(obos[k].terms[i].id, k) != c
    ensures SynonymsOf(PerTerm(obos, SynonymRows), c) == []
    decreases |obos|
  {
    if obos != [] {
      var n := |obos| - 1;
      var init := obos[..n];
      assert forall k :: 0 <= k < n ==> init[k] == obos[k];
      SynonymsOfOntologiesNone(init, c);
      SynonymsOfTermsNone(obos[n].terms, n, c);
      SynonymsOfAppend(PerTerm(init, SynonymRows), PerTermIn(obos[n].terms, n, SynonymRows), c);
    }
  }

  lemma {:induction false} SynonymsOfOntologiesOne(obos: seq<Obo>, c: int, k: int, i: int)
    requires 0 <= k < |obos| && 0 <= i < |obos[k].terms| && EnumValue(obos[k].terms[i].id, k) == c
    requires forall k', i' ::
      (0 <= k' < |obos| && 0 <= i' < |obos[k'].terms| && EnumValue(obos[k'].terms[i'].id, k') == c) ==> k' == k && i' == i
    ensures SynonymsOf(PerTerm(obos, SynonymRows), c) == obos[k].terms[i].exactSynonyms
    decreases |obos|
  {
    var n := |obos| - 1;
    var init := obos[..n];
    assert forall k' :: 0 <= k' < n ==> init[k'] == obos[k'];
    if k == n {
      SynonymsOfOntologiesNone(init, c);
      SynonymsOfTermsOne(obos[n].terms, n, c, i);
    } else {
      SynonymsOfOntologiesOne(init, c, k, i);
      SynonymsOfTermsNone(obos[n].terms, n, c);
    }
    SynonymsOfAppend(PerTerm(init, SynonymRows), PerTermIn(obos[n].terms, n, SynonymRows), c);
  }

  /** The strings the generated program holds for literals whose bodies are `texts`. */
  function CompileAll(texts: seq<string>): seq<string> {
    seq(|texts|, j requires 0 <= j < |texts| => CStringOf(texts[j]))
  }

  /** Compiling the synonym table compiles the synonyms each code collects. */
  lemma {:induction false} SynonymsOfCompiled(pairs: seq<CvidStringPair>, compiled: seq<CvidStringPair>, c: int)
    requires |compiled| == |pairs|
    requires forall j :: 0 <= j < |pairs| ==> compiled[j] == CompileSynonymRow(pairs[j])
    ensures SynonymsOf(compiled, c) == CompileAll(SynonymsOf(pairs, c))
    decreases |pairs|
  {
    if pairs != [] {
      var n := |pairs| - 1;
      SynonymsOfCompiled(pairs[..n], compiled[..n], c);
      var before := SynonymsOf(pairs[..n], c);
      if pairs[n].first == c {
        assert CompileAll(before + [pairs[n].second]) == CompileAll(before) + [CStringOf(pairs[n].second)];
      }
    }
  }

  /**
   * `cvTermInfo(cvid).exactSynonyms` of a term: its synonyms in file order,
   * each as the C++ compiler reads the unescaped literal, up to its first
   * NUL; a plain synonym comes back unchanged.
   */
  lemma SynonymsRoundTrip(obos: seq<Obo>, k: int, i: int)
    requires WellFormed(obos) && 0 <= k < |obos| && 0 <= i < |obos[k].terms|
    ensures var t := obos[k].terms[i];
      var r := InfoAt(GeneratedDatabase(obos).infoMap, EnumValue(t.id, k)).exactSynonyms;
      r == CompileAll(t.exactSynonyms)
      && ((forall j :: 0 <= j < |t.exactSynonyms| ==> PlainText(t.exactSynonyms[j])) ==> r == t.exactSynonyms)
  {
    var t := obos[k].terms[i];
    var c := EnumValue(t.id, k);
    CompiledInfoRowOfCode(obos, k, i);
    InitializedRecord(CompileTables(GeneratedTables(obos)), c);
    CompiledSynonymsOfCode(obos, k, i);
    if forall j :: 0 <= j < |t.exactSynonyms| ==> PlainText(t.exactSynonyms[j]) {
      CompileAllPlain(t.exactSynonyms);
    }
  }

  /** The compiled synonym table holds, for a term's code, the compiled synonyms of that term. */
  lemma CompiledSynonymsOfCode(obos: seq<Obo>, k: int, i: int)
    requires WellFormed(obos) && 0 <= k < |obos| && 0 <= i < |obos[k].terms|
    ensures var t := obos[k].terms[i];
      SynonymsOf(CompileTables(GeneratedTables(obos)).relationsExactSynonym, EnumValue(t.id, k)) == CompileAll(t.exactSynonyms)
  {
    var gen := GeneratedTables(obos);
    GeneratedSynonymsOfCode(obos, k, i);
    SynonymsOfCompiled(gen.relationsExactSynonym, CompileTables(gen).relationsExactSynonym, EnumValue(obos[k].terms[i].id, k));
  }

  /** The generated synonym table holds, for a term's code, exactly that term's synonyms in order. */
  lemma GeneratedSynonymsOfCode(obos: seq<Obo>, k: int, i: int)
    requires WellFormed(obos) && 0 <= k < |obos| && 0 <= i < |obos[k].terms|
    ensures var t := obos[k].terms[i];
      SynonymsOf(GeneratedTables(obos).relationsExactSynonym, EnumValue(t.id, k)) == t.exactSynonyms
  {
    var t := obos[k].terms[i];
    var c := EnumValue(t.id, k);
    CodeUnique(obos, k, i);
    SynonymsOfOntologiesOne(obos, c, k, i);
    SynonymsOfOtherFirst(UnknownSynonymRow, PerTerm(obos, SynonymRows), c);
  }

  /** A leading row for another code adds nothing to the synonyms of `c`. */
  lemma SynonymsOfOtherFirst(row: CvidStringPair, rest: seq<CvidStringPair>, c: int)
    requires row.first != c
    ensures SynonymsOf([row] + rest, c) == SynonymsOf(rest, c)
  {
    SynonymsOfAppend([row], rest, c);
    assert [row][..0] == [];
  }

  /** No term's relation rows name `CVID_Unknown` as child. */
  lemma UnknownParents(obos: seq<Obo>, rel: Relation)
    ensures ParentsOf(InfoAt(GeneratedDatabase(obos).infoMap, CvidUnknown), rel) == []
  {
    var tables := CompileTables(GeneratedTables(obos));
    CompiledUnknownRow(obos);
    InitializedRecord(tables, CvidUnknown);
    SecondsOfOntologiesNone(obos, rel, CvidUnknown);
    match rel
    case IsA =>
      assert tables.relationsIsA == PerTerm(obos, RelationRows(IsA));
    case PartOf =>
      assert tables.relationsPartOf == PerTerm(obos, RelationRows(PartOf));
  }

  /** The synonyms collected for `CVID_Unknown` are those of the header row only. */
  lemma UnknownSynonyms(obos: seq<Obo>)
    ensures SynonymsOf(GeneratedTables(obos).relationsExactSynonym, CvidUnknown) == [UnknownSynonymRow.second]
  {
    SynonymsOfOntologiesNone(obos, CvidUnknown);
    SynonymsOfAppend([UnknownSynonymRow], PerTerm(obos, SynonymRows), CvidUnknown);
  }

  /** Plain literals compile to themselves. */
  lemma CompileAllPlain(texts: seq<string>)
    requires forall j :: 0 <= j < |texts| ==> PlainText(texts[j])
    ensures CompileAll(texts) == texts
  {
    forall j | 0 <= j < |texts| ensures CStringOf(texts[j]) == texts[j] {
      PlainCString(texts[j]);
    }
  }

  /** `CVID_Unknown` ends up with the header synonym only. */
  lemma UnknownSynonymsLoaded(obos: seq<Obo>)
    ensures InfoAt(GeneratedDatabase(obos).infoMap, CvidUnknown).exactSynonyms == [UnknownSynonymRow.second]
  {
    var tables := CompileTables(GeneratedTables(obos));
    CompiledUnknownRow(obos);
    InitializedRecord(tables, CvidUnknown);
    CompiledUnknownSynonyms(obos);
    assert RowInfo(UnknownTermInfoRow).exactSynonyms == [];
  }

  /** Compiling the synonym table leaves `CVID_Unknown` with the header synonym only. */
  lemma CompiledUnknownSynonyms(obos: seq<Obo>)
    ensures SynonymsOf(CompileTables(GeneratedTables(obos)).relationsExactSynonym, CvidUnknown) == [UnknownSynonymRow.second]
  {
    var gen := GeneratedTables(obos);
    UnknownSynonyms(obos);
    SynonymsOfCompiled(gen.relationsExactSynonym, CompileTables(gen).relationsExactSynonym, CvidUnknown);
    CompileAllPlain([UnknownSynonymRow.second]);
  }

  /**
   * The `CVID_Unknown` record: accession `??:0000000`, name and definition
   * `CVID_Unknown`, no parents, and the one synonym `Unknown`.
   */
  lemma UnknownRecord(obos: seq<Obo>)
    ensures var r := InfoAt(GeneratedDatabase(obos).infoMap, CvidUnknown);
      r.cvid == CvidUnknown && r.id == "??:0000000" && r.name == "CVID_Unknown" && r.def == "CVID_Unknown"
      && r.parentsIsA == [] && r.parentsPartOf == [] && r.exactSynonyms == [UnknownSynonymRow.second]
  {
    var tables := CompileTables(GeneratedTables(obos));
    CompiledUnknownRow(obos);
    InitializedRecord(tables, CvidUnknown);
    UnknownParents(obos, IsA);
    UnknownParents(obos, PartOf);
    UnknownSynonymsLoaded(obos);
  }
}
