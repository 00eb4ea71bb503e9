/**
 * The lookup code the generator writes out, as functions over an explicit
 * database value. `Initialize` is the loop nest of `initialize()` that fills
 * `infoMap_`, `cvids_` and `cvMap_` from the tables; the queries are `cv`,
 * `CV::empty`, `CV::operator==`, `cvTermInfo` by code and by accession,
 * `stringToCVID`, `cvIsA`, `CVTermInfo::shortName` and `CVTermInfo::prefix`.
 *
 * The tables are taken here as the generated program sees them: a string is
 * the C string its `const char*` designates (the value of its literal up to
 * the first NUL), not the literal's text.
 */
module CvRuntime {
  import opened Ascii
  import opened Seqs
  import opened Wrappers
  import opened CvIds
  import opened CvTables

  /** `CVTermInfo`. */
  datatype CvTermInfo = CvTermInfo(
    cvid: int,
    id: string,
    name: string,
    def: string,
    parentsIsA: seq<int>,
    parentsPartOf: seq<int>,
    exactSynonyms: seq<string>)

  /** A default-constructed `CVTermInfo`: code `CVID_Unknown`, everything else empty. */
  const DefaultTermInfo: CvTermInfo := CvTermInfo(CvidUnknown, "", "", "", [], [], [])

  /** `CV`. */
  datatype Cv = Cv(id: string, uri: string, fullName: string, version: string)

  /** A default-constructed `CV`. */
  const EmptyCv: Cv := Cv("", "", "", "")

  /** The state `initialize()` leaves: `infoMap_`, `cvMap_`, `cvids_`, and the constant `oboPrefixes_`. */
  datatype CvDatabase = CvDatabase(
    infoMap: map<int, CvTermInfo>,
    cvMap: map<string, Cv>,
    cvids: seq<int>,
    oboPrefixes: seq<string>)

  datatype CvError =
    | SplitError(id: string)  // the `runtime_error` of a malformed accession
    | BadLexicalCast           // the `bad_lexical_cast` of `stringToCVID`

  /** `infoMap_[cvid]` read through `operator[]`: a missing key reads as a default record. */
  function InfoAt(m: map<int, CvTermInfo>, cvid: int): (r: CvTermInfo)
    ensures cvid !in m ==> r == DefaultTermInfo
    ensures cvid in m ==> r == m[cvid]
  {
    if cvid in m then m[cvid] else DefaultTermInfo
  }

  /** `cvMap_[prefix]` read through `operator[]`: a missing key reads as an empty `CV`. */
  function CvAt(m: map<string, Cv>, prefix: string): (r: Cv)
    ensures prefix !in m ==> r == EmptyCv
    ensures prefix in m ==> r == m[prefix]
  {
    if prefix in m then m[prefix] else EmptyCv
  }

  function ParentsOf(info: CvTermInfo, rel: Relation): seq<int> {
    match rel
    case IsA => info.parentsIsA
    case PartOf => info.parentsPartOf
  }

  function WithParents(info: CvTermInfo, rel: Relation, ps: seq<int>): (r: CvTermInfo)
    ensures ParentsOf(r, rel) == ps
  {
    match rel
    case IsA => info.(parentsIsA := ps)
    case PartOf => info.(parentsPartOf := ps)
  }

  /*
   * What `initialize()` computes, one fold per loop, each row applied in table order.
   */

  /** The record the first loop stores for a `termInfos_` row. */
  function RowInfo(row: TermInfoRow): CvTermInfo {
    CvTermInfo(row.cvid, row.id, row.name, row.def, [], [], [])
  }

  function LoadTermInfos(rows: seq<TermInfoRow>): map<int, CvTermInfo>
    decreases |rows|
  {
    if rows == [] then map[]
    else LoadTermInfos(rows[..|rows| - 1])[rows[|rows| - 1].cvid := RowInfo(rows[|rows| - 1])]
  }

  function RowCvids(rows: seq<TermInfoRow>): seq<int>
    decreases |rows|
  {
    if rows == [] then [] else RowCvids(rows[..|rows| - 1]) + [rows[|rows| - 1].cvid]
  }

  /** Appends each pair's parent to the list of its child, creating a default record when the child is missing. */
  function LoadRelations(m: map<int, CvTermInfo>, pairs: seq<CvidPair>, rel: Relation): map<int, CvTermInfo>
    decreases |pairs|
  {
    if pairs == [] then m
    else
      var m' := LoadRelations(m, pairs[..|pairs| - 1], rel);
      var p := pairs[|pairs| - 1];
      var info := InfoAt(m', p.first);
      m'[p.first := WithParents(info, rel, ParentsOf(info, rel) + [p.second])]
  }

  function LoadSynonyms(m: map<int, CvTermInfo>, pairs: seq<CvidStringPair>): map<int, CvTermInfo>
    decreases |pairs|
  {
    if pairs == [] then m
    else
      var m' := LoadSynonyms(m, pairs[..|pairs| - 1]);
      var p := pairs[|pairs| - 1];
      var info := InfoAt(m', p.first);
      m'[p.first := info.(exactSynonyms := info.exactSynonyms + [p.second])]
  }

  const MsFullName: string := "Proteomics Standards Initiative Mass Spectrometry Ontology"
  const MsUri: string := "http://psidev.cvs.sourceforge.net/*checkout*/psidev/psi/psi-ms/mzML/controlledVocabulary/psi-ms.obo"
  const UoFullName: string := "Unit Ontology"
  const UoUri: string := "http://obo.cvs.sourceforge.net/*checkout*/obo/obo/ontology/phenotype/unit.obo"

  /** The `cvMap_` entries written whatever the input: full name and URI of MS and UO. */
  const BaseCvMap: map<string, Cv> := map["MS" := Cv("", MsUri, MsFullName, ""), "UO" := Cv("", UoUri, UoFullName, "")]

  /** Sets the id and then the version of each ontology's `cvMap_` entry. */
  function LoadCvs(m: map<string, Cv>, rows: seq<CvRow>): map<string, Cv>
    decreases |rows|
  {
    if rows == [] then m
    else
      var m' := LoadCvs(m, rows[..|rows| - 1]);
      var row := rows[|rows| - 1];
      m'[row.prefix := CvAt(m', row.prefix).(id := row.prefix, version := row.version)]
  }

  /** The database `initialize()` builds from the tables. */
  function Initialized(tables: Tables): CvDatabase {
    var infos := LoadTermInfos(tables.termInfos);
    var withIsA := LoadRelations(infos, tables.relationsIsA, IsA);
    var withPartOf := LoadRelations(withIsA, tables.relationsPartOf, PartOf);
    var withSynonyms := LoadSynonyms(withPartOf, tables.relationsExactSynonym);
    CvDatabase(withSynonyms, LoadCvs(BaseCvMap, tables.cvRows), RowCvids(tables.termInfos), tables.oboPrefixes)
  }

  /** `initialize()`: the loops over the four tables, then the `cvMap_` assignments. */
  method Initialize(tables: Tables) returns (db: CvDatabase)
    ensures db == Initialized(tables)
  {
    var infoMap, cvids := LoadTermInfosLoop(tables.termInfos);
    infoMap := LoadRelationsLoop(infoMap, tables.relationsIsA, IsA);
    infoMap := LoadRelationsLoop(infoMap, tables.relationsPartOf, PartOf);
    infoMap := LoadSynonymsLoop(infoMap, tables.relationsExactSynonym);
    var cvMap := LoadCvsLoop(tables.cvRows);
    db := CvDatabase(infoMap, cvMap, cvids, tables.oboPrefixes);
  }

  /** The `termInfos_` loop of `initialize()`: one record per row, and the row's code appended to `cvids_`. */
  method LoadTermInfosLoop(rows: seq<TermInfoRow>) returns (infoMap: map<int, CvTermInfo>, cvids: seq<int>)
    ensures infoMap == LoadTermInfos(rows) && cvids == RowCvids(rows)
  {
    infoMap := map[];
    cvids := [];
    var i := 0;
    while i < |rows|
      invariant 0 <= i <= |rows|
      invariant infoMap == LoadTermInfos(rows[..i]) && cvids == RowCvids(rows[..i])
    {
      assert rows[..i + 1][..i] == rows[..i];
      var temp := CvTermInfo(rows[i].cvid, rows[i].id, rows[i].name, rows[i].def, [], [], []);
      infoMap := infoMap[temp.cvid := temp];
      cvids := cvids + [rows[i].cvid];
      i := i + 1;
    }
    assert rows[..|rows|] == rows;
  }

  /** The synonym loop of `initialize()`. */
  method LoadSynonymsLoop(m: map<int, CvTermInfo>, synonyms: seq<CvidStringPair>) returns (infoMap: map<int, CvTermInfo>)
    ensures infoMap == LoadSynonyms(m, synonyms)
  {
    infoMap := m;
    var i := 0;
    while i < |synonyms|
      invariant 0 <= i <= |synonyms|
      invariant infoMap == LoadSynonyms(m, synonyms[..i])
    {
      assert synonyms[..i + 1][..i] == synonyms[..i];
      var info := InfoAt(infoMap, synonyms[i].first);
      infoMap := infoMap[synonyms[i].first := info.(exactSynonyms := info.exactSynonyms + [synonyms[i].second])];
      i := i + 1;
    }
    assert synonyms[..|synonyms|] == synonyms;
  }

  /** The `cvMap_` assignments of `initialize()`, after the fixed MS and UO entries. */
  method LoadCvsLoop(cvRows: seq<CvRow>) returns (cvMap: map<string, Cv>)
    ensures cvMap == LoadCvs(BaseCvMap, cvRows)
  {
    cvMap := BaseCvMap;
    var i := 0;
    while i < |cvRows|
      invariant 0 <= i <= |cvRows|
      invariant cvMap == LoadCvs(BaseCvMap, cvRows[..i])
    {
      assert cvRows[..i + 1][..i] == cvRows[..i];
      var cv := CvAt(cvMap, cvRows[i].prefix);
      cv := cv.(id := cvRows[i].prefix);
      cv := cv.(version := cvRows[i].version);
      cvMap := cvMap[cvRows[i].prefix := cv];
      i := i + 1;
    }
    assert cvRows[..|cvRows|] == cvRows;
  }

  /** One of the two relation loops of `initialize()`. */
  method LoadRelationsLoop(m: map<int, CvTermInfo>, pairs: seq<CvidPair>, rel: Relation) returns (r: map<int, CvTermInfo>)
    ensures r == LoadRelations(m, pairs, rel)
  {
    r := m;
    var i := 0;
    while i < |pairs|
      invariant 0 <= i <= |pairs|
      invariant r == LoadRelations(m, pairs[..i], rel)
    {
      assert pairs[..i + 1][..i] == pairs[..i];
      var info := InfoAt(r, pairs[i].first);
      r := r[pairs[i].first := WithParents(info, rel, ParentsOf(info, rel) + [pairs[i].second])];
      i := i + 1;
    }
    assert pairs[..|pairs|] == pairs;
  }

  /*
   * What the folds leave, stated without them.
   */

  /** Every `termInfos_` row becomes an entry, and the last row with a code supplies that code's record. */
  lemma {:induction false} LoadTermInfosContents(rows: seq<TermInfoRow>)
    ensures forall c :: c in LoadTermInfos(rows) <==> exists i :: 0 <= i < |rows| && rows[i].cvid == c
    decreases |rows|
  {
    if rows != [] {
      var init := rows[..|rows| - 1];
      LoadTermInfosContents(init);
      forall c | c in LoadTermInfos(rows) ensures exists i :: 0 <= i < |rows| && rows[i].cvid == c {
        if c != rows[|rows| - 1].cvid {
          assert c in LoadTermInfos(init);
          var i :| 0 <= i < |init| && init[i].cvid == c;
          assert rows[i] == init[i];
        }
      }
      forall c | exists i :: 0 <= i < |rows| && rows[i].cvid == c ensures c in LoadTermInfos(rows) {
        var i :| 0 <= i < |rows| && rows[i].cvid == c;
        if i < |init| {
          assert init[i] == rows[i];
        }
      }
    }
  }

  lemma {:induction false} LoadTermInfosLast(rows: seq<TermInfoRow>, i: int)
    requires 0 <= i < |rows|
    requires forall j :: i < j < |rows| ==> rows[j].cvid != rows[i].cvid
    ensures rows[i].cvid in LoadTermInfos(rows) && LoadTermInfos(rows)[rows[i].cvid] == RowInfo(rows[i])
    decreases |rows|
  {
    if i < |rows| - 1 {
      TermInfosLastStep(rows, i);
    }
  }

  lemma {:induction false} TermInfosLastStep(rows: seq<TermInfoRow>, i: int)
    requires 0 <= i < |rows| - 1
    requires forall j :: i < j < |rows| ==> rows[j].cvid != rows[i].cvid
    ensures rows[i].cvid in LoadTermInfos(rows) && LoadTermInfos(rows)[rows[i].cvid] == RowInfo(rows[i])
    decreases |rows|, 0
  {
    var init := rows[..|rows| - 1];
    assert init[i] == rows[i];
    LoadTermInfosLast(init, i);
  }

  /** `cvids_` lists the codes of the `termInfos_` rows, in table order. */
  lemma {:induction false} RowCvidsContents(rows: seq<TermInfoRow>)
    ensures |RowCvids(rows)| == |rows|
    ensures forall i :: 0 <= i < |rows| ==> RowCvids(rows)[i] == rows[i].cvid
    decreases |rows|
  {
    if rows != [] {
      RowCvidsContents(rows[..|rows| - 1]);
    }
  }

  /** The parents, in table order, of the pairs whose child is `c`. */
  function SecondsOf(pairs: seq<CvidPair>, c: int): seq<int>
    decreases |pairs|
  {
    if pairs == [] then []
    else SecondsOf(pairs[..|pairs| - 1], c) + (if pairs[|pairs| - 1].first == c then [pairs[|pairs| - 1].second] else [])
  }

  /**
   * A relation loop appends to the list of `c` exactly the parents of the
   * pairs whose child is `c`, in table order, and changes nothing else of any
   * record; a code gets an entry if it had one or is the child of some pair.
   */
  lemma {:induction false} LoadRelationsAt(m: map<int, CvTermInfo>, pairs: seq<CvidPair>, rel: Relation, c: int)
    ensures InfoAt(LoadRelations(m, pairs, rel), c) ==
      WithParents(InfoAt(m, c), rel, ParentsOf(InfoAt(m, c), rel) + SecondsOf(pairs, c))
    ensures c in LoadRelations(m, pairs, rel) <==> c in m || SecondsOf(pairs, c) != []
    decreases |pairs|
  {
    if pairs == [] {
      assert ParentsOf(InfoAt(m, c), rel) + [] == ParentsOf(InfoAt(m, c), rel);
      match rel
      case IsA =>
      case PartOf =>
    } else {
      LoadRelationsAt(m, pairs[..|pairs| - 1], rel, c);
      var p := pairs[|pairs| - 1];
      var m' := LoadRelations(m, pairs[..|pairs| - 1], rel);
      if p.first == c {
        var info := InfoAt(m', c);
        assert ParentsOf(InfoAt(m, c), rel) + SecondsOf(pairs, c)
          == ParentsOf(InfoAt(m, c), rel) + SecondsOf(pairs[..|pairs| - 1], c) + [p.second];
        match rel
        case IsA =>
        case PartOf =>
      }
    }
  }

  /** The synonyms, in table order, of the pairs whose term is `c`. */
  function SynonymsOf(pairs: seq<CvidStringPair>, c: int): seq<string>
    decreases |pairs|
  {
    if pairs == [] then []
    else SynonymsOf(pairs[..|pairs| - 1], c) + (if pairs[|pairs| - 1].first == c then [pairs[|pairs| - 1].second] else [])
  }

  /** The synonym loop appends to the list of `c` exactly the synonyms of the rows for `c`, in table order. */
  lemma {:induction false} LoadSynonymsAt(m: map<int, CvTermInfo>, pairs: seq<CvidStringPair>, c: int)
    ensures InfoAt(LoadSynonyms(m, pairs), c) ==
      InfoAt(m, c).(exactSynonyms := InfoAt(m, c).exactSynonyms + SynonymsOf(pairs, c))
    ensures c in LoadSynonyms(m, pairs) <==> c in m || SynonymsOf(pairs, c) != []
    decreases |pairs|
  {
    if pairs == [] {
      assert InfoAt(m, c).exactSynonyms + [] == InfoAt(m, c).exactSynonyms;
    } else {
      LoadSynonymsAt(m, pairs[..|pairs| - 1], c);
      if pairs[|pairs| - 1].first == c {
        assert InfoAt(m, c).exactSynonyms + SynonymsOf(pairs, c)
          == InfoAt(m, c).exactSynonyms + SynonymsOf(pairs[..|pairs| - 1], c) + [pairs[|pairs| - 1].second];
      }
    }
  }

  /** The last row for a prefix sets its id and version; other fields keep their earlier values. */
  lemma {:induction false} LoadCvsAt(m: map<string, Cv>, rows: seq<CvRow>, i: int)
    requires 0 <= i < |rows|
    requires forall j :: i < j < |rows| ==> rows[j].prefix != rows[i].prefix
    ensures CvAt(LoadCvs(m, rows), rows[i].prefix).id == rows[i].prefix
    ensures CvAt(LoadCvs(m, rows), rows[i].prefix).version == rows[i].version
    decreases |rows|
  {
    if i < |rows| - 1 {
      var init := rows[..|rows| - 1];
      assert init[i] == rows[i];
      LoadCvsAt(m, init, i);
    }
  }

  /** The rows only set ids and versions: full names and URIs are those of the starting map. */
  lemma {:induction false} LoadCvsKeepsNames(m: map<string, Cv>, rows: seq<CvRow>, prefix: string)
    ensures CvAt(LoadCvs(m, rows), prefix).fullName == CvAt(m, prefix).fullName
    ensures CvAt(LoadCvs(m, rows), prefix).uri == CvAt(m, prefix).uri
    ensures prefix in LoadCvs(m, rows) <==> prefix in m || exists j :: 0 <= j < |rows| && rows[j].prefix == prefix
    decreases |rows|
  {
    if rows != [] {
      var init := rows[..|rows| - 1];
      LoadCvsKeepsNames(m, init, prefix);
      if exists j :: 0 <= j < |rows| && rows[j].prefix == prefix {
        var j :| 0 <= j < |rows| && rows[j].prefix == prefix;
        if j < |init| {
          assert init[j] == rows[j];
        }
      }
      if exists j :: 0 <= j < |init| && init[j].prefix == prefix {
        var j :| 0 <= j < |init| && init[j].prefix == prefix;
        assert rows[j] == init[j];
      }
    }
  }

  /** A prefix no row names keeps its entry, or reads as empty. */
  lemma {:induction false} LoadCvsUntouched(m: map<string, Cv>, rows: seq<CvRow>, prefix: string)
    requires forall j :: 0 <= j < |rows| ==> rows[j].prefix != prefix
    ensures CvAt(LoadCvs(m, rows), prefix) == CvAt(m, prefix)
    decreases |rows|
  {
    if rows != [] {
      LoadCvsUntouched(m, rows[..|rows| - 1], prefix);
    }
  }

  /**
   * The record `initialize()` leaves under a code: code, accession, name and
   * definition from the term table, then the parents and synonyms the
   * relation tables list for that code, in table order.
   */
  lemma InitializedRecord(tables: Tables, c: int)
    ensures var r := InfoAt(Initialized(tables).infoMap, c);
      var base := InfoAt(LoadTermInfos(tables.termInfos), c);
      r.cvid == base.cvid && r.id == base.id && r.name == base.name && r.def == base.def
      && r.parentsIsA == base.parentsIsA + SecondsOf(tables.relationsIsA, c)
      && r.parentsPartOf == base.parentsPartOf + SecondsOf(tables.relationsPartOf, c)
      && r.exactSynonyms == base.exactSynonyms + SynonymsOf(tables.relationsExactSynonym, c)
  {
    var infos := LoadTermInfos(tables.termInfos);
    var withIsA := LoadRelations(infos, tables.relationsIsA, IsA);
    var withPartOf := LoadRelations(withIsA, tables.relationsPartOf, PartOf);
    LoadRelationsAt(infos, tables.relationsIsA, IsA, c);
    LoadRelationsAt(withIsA, tables.relationsPartOf, PartOf, c);
    LoadSynonymsAt(withPartOf, tables.relationsExactSynonym, c);
  }

  /*
   * The queries.
   */

  /** `cv(prefix)`. */
  function CvOf(db: CvDatabase, prefix: string): Cv {
    CvAt(db.cvMap, prefix)
  }

  /** `CV::empty`: all four strings are empty. */
  function CvEmpty(cv: Cv): (r: bool)
    ensures r <==> cv == EmptyCv
  {
    cv.id == [] && cv.fullName == [] && cv.uri == [] && cv.version == []
  }

  /** `CV::operator==`: the four strings pairwise equal. */
  function CvEquals(a: Cv, b: Cv): (r: bool)
    ensures r <==> a == b
  {
    a.id == b.id && a.fullName == b.fullName && a.uri == b.uri && a.version == b.version
  }

  /** `cvTermInfo(CVID)`. */
  function TermInfo(db: CvDatabase, cvid: int): CvTermInfo {
    InfoAt(db.infoMap, cvid)
  }

  /** Number of occurrences of `c` in `s`. */
  function Occurrences(s: string, c: char): nat
    decreases |s|
  {
    if s == [] then 0 else (if s[0] == c then 1 else 0) + Occurrences(s[1..], c)
  }

  /** `sep` between the strings of `parts`. */
  function Join(parts: seq<string>, sep: char): string
    decreases |parts|
  {
    if parts == [] then [] else if |parts| == 1 then parts[0] else parts[0] + [sep] + Join(parts[1..], sep)
  }

  /**
   * `bal::split` on one separator character: the pieces between separators,
   * empty pieces included, so a string with `n` separators gives `n + 1` pieces.
   */
  function Split(s: string, sep: char): (tokens: seq<string>)
    ensures |tokens| == Occurrences(s, sep) + 1
    ensures forall i :: 0 <= i < |tokens| ==> sep !in tokens[i]
    ensures Join(tokens, sep) == s
    decreases |s|
  {
    if s == [] then [[]]
    else
      var rest := Split(s[1..], sep);
      if s[0] == sep then
        assert s == [sep] + s[1..];
        [[]] + rest
      else
        assert s == [s[0]] + s[1..];
        assert rest == [rest[0]] + rest[1..];
        [[s[0]] + rest[0]] + rest[1..]
  }

  /** Splitting at a separator that occurs once gives the text before and after it. */
  lemma SplitAtOnlySeparator(a: string, b: string, sep: char)
    requires sep !in a && sep !in b
    ensures Split(a + [sep] + b, sep) == [a, b]
  {
    SplitAfterPiece(a, b, sep);
    SplitNoSeparator(b, sep);
  }

  /** A piece without the separator, then the separator, splits off as the first token. */
  lemma {:induction false} SplitAfterPiece(a: string, b: string, sep: char)
    requires sep !in a
    ensures Split(a + [sep] + b, sep) == [a] + Split(b, sep)
    decreases |a|
  {
    var s := a + [sep] + b;
    if a == [] {
      assert s[1..] == b;
    } else {
      assert s[1..] == a[1..] + [sep] + b;
      SplitAfterPiece(a[1..], b, sep);
      assert a == [a[0]] + a[1..];
    }
  }

  /** A string without the separator is a single token. */
  lemma {:induction false} SplitNoSeparator(b: string, sep: char)
    requires sep !in b
    ensures Split(b, sep) == [b]
    decreases |b|
  {
    if b != [] {
      SplitNoSeparator(b[1..], sep);
      assert b == [b[0]] + b[1..];
    }
  }

  /** `strtoul`'s `ULONG_MAX` for a 32-bit `unsigned long`. */
  const ULongMax: nat := 0xFFFF_FFFF

  /** The run of decimal digits at the start of `s`. */
  function DigitRun(s: string): (r: string)
    ensures |r| <= |s| && r == s[..|r|] && AllDigits(r)
    ensures |r| < |s| ==> !IsDigit(s[|r|])
  {
    if s == [] || !IsDigit(s[0]) then []
    else
      var r := [s[0]] + DigitRun(s[1..]);
      assert s[..|r|] == [s[0]] + s[1..][..|r| - 1];
      r
  }

  lemma DigitRunOfDigits(s: string)
    ensures AllDigits(s) ==> DigitRun(s) == s
  {
  }

  /**
   * `stringToCVID`: `strtoul` in base 10 (leading blanks skipped, an optional
   * sign, then the longest run of digits, a `-` negating modulo 2^32), a
   * `bad_lexical_cast` when no digit was read or the value overflows.
   */
  function StringToCvid(s: string): (r: Result<nat, CvError>)
    ensures r.Ok? ==> r.value <= ULongMax
    ensures s != [] && AllDigits(s) && DigitsValue(s) <= ULongMax ==> r == Ok(DigitsValue(s))
    ensures s != [] && AllDigits(s) && DigitsValue(s) > ULongMax ==> r == Err(BadLexicalCast)
    ensures s == [] || (!IsDigit(s[0]) && !IsSpace(s[0]) && s[0] != '+' && s[0] != '-') ==> r == Err(BadLexicalCast)
  {
    var w := SpaceRun(s);
    var rest := s[w..];
    var signed := rest != [] && (rest[0] == '+' || rest[0] == '-');
    var digits := DigitRun(if signed then rest[1..] else rest);
    DigitRunOfDigits(s);
    if digits == [] || DigitsValue(digits) > ULongMax then Err(BadLexicalCast)
    else if signed && rest[0] == '-' then Ok((ULongMax + 1 - DigitsValue(digits)) % (ULongMax + 1))
    else Ok(DigitsValue(digits))
  }

  /** `strtoul` stops at the first non-digit: trailing text after the digits is ignored. */
  lemma StringToCvidPrefix(digits: string, rest: string)
    requires digits != [] && AllDigits(digits) && DigitsValue(digits) <= ULongMax
    requires rest == [] || !IsDigit(rest[0])
    ensures StringToCvid(digits + rest) == Ok(DigitsValue(digits))
  {
    var s := digits + rest;
    assert s[0] == digits[0];
    assert SpaceRun(s) == 0;
    assert s[0..] == s;
    assert s[0] != '+' && s[0] != '-';
    DigitRunAppend(digits, rest);
    assert DigitRun(s) == digits;
  }

  lemma {:induction false} DigitRunAppend(digits: string, rest: string)
    requires AllDigits(digits) && (rest == [] || !IsDigit(rest[0]))
    ensures DigitRun(digits + rest) == digits
    decreases |digits|
  {
    if digits != [] {
      assert (digits + rest)[1..] == digits[1..] + rest;
      DigitRunAppend(digits[1..], rest);
      assert digits == [digits[0]] + digits[1..];
    } else {
      assert digits + rest == rest;
    }
  }

  /** `(CVID)n`: the code as the 32-bit signed enumeration type holds it. */
  function ToCvid(n: nat): (c: int)
    ensures -0x8000_0000 <= c < 0x8000_0000
    ensures n < 0x8000_0000 ==> c == n
  {
    var m := n % 0x1_0000_0000;
    if m < 0x8000_0000 then m else m - 0x1_0000_0000
  }

  /**
   * `cvTermInfo(const string&)`: split the accession at `:`; with other than
   * exactly two pieces, an error; with an unknown prefix, the `CVID_Unknown`
   * record; otherwise the record of `position * enumBlockSize_ + number`. The
   * prefix is compared through `c_str()`, so only its part before a NUL counts;
   * `strtoul` stops at a NUL by itself.
   */
  function TermInfoById(db: CvDatabase, id: string): Result<CvTermInfo, CvError> {
    var tokens := Split(id, ':');
    if |tokens| != 2 then Err(SplitError(id)) else LookUpAccession(db, tokens[0], tokens[1])
  }

  /** `cvTermInfo(const string&)` once the accession has split into a prefix and a number. */
  function LookUpAccession(db: CvDatabase, prefix: string, number: string): Result<CvTermInfo, CvError> {
    match IndexOf(db.oboPrefixes, UpToNul(prefix))
    case None => Ok(InfoAt(db.infoMap, CvidUnknown))
    case Some(k) =>
      match StringToCvid(number)
      case Err(e) => Err(e)
      case Ok(n) => Ok(InfoAt(db.infoMap, ToCvid(k * EnumBlockSize + n)))
  }

  /** The accession is rejected exactly when it does not hold exactly one `:`. */
  lemma TermInfoByIdSplitError(db: CvDatabase, id: string)
    ensures TermInfoById(db, id) == Err(SplitError(id)) <==> Occurrences(id, ':') != 1
  {
  }

  /**
   * An accession `prefix:number` whose prefix is the `k`-th registered one
   * and whose number converts to `n` reads the record of code
   * `k * enumBlockSize_ + n`, taken as a 32-bit `CVID`.
   */
  lemma TermInfoByIdKnown(db: CvDatabase, prefix: string, number: string, k: nat, n: nat)
    requires ':' !in prefix && ':' !in number
    requires IndexOf(db.oboPrefixes, UpToNul(prefix)) == Some(k) && StringToCvid(number) == Ok(n)
    ensures TermInfoById(db, prefix + ":" + number) == Ok(InfoAt(db.infoMap, ToCvid(k * EnumBlockSize + n)))
  {
    SplitAtOnlySeparator(prefix, number, ':');
    TermInfoByIdTokens(db, prefix + ":" + number, prefix, number);
    LookUpKnown(db, prefix, number, k, n);
  }

  /** A registered prefix and a number that converts give the record of the recomputed code. */
  lemma LookUpKnown(db: CvDatabase, prefix: string, number: string, k: nat, n: nat)
    requires IndexOf(db.oboPrefixes, UpToNul(prefix)) == Some(k) && StringToCvid(number) == Ok(n)
    ensures LookUpAccession(db, prefix, number) == Ok(InfoAt(db.infoMap, ToCvid(k * EnumBlockSize + n)))
  {
  }

  /** An accession that splits into two pieces is looked up by those pieces. */
  lemma TermInfoByIdTokens(db: CvDatabase, id: string, prefix: string, number: string)
    requires Split(id, ':') == [prefix, number]
    ensures TermInfoById(db, id) == LookUpAccession(db, prefix, number)
  {
  }

  /** An accession whose prefix is not an ontology's gives the `CVID_Unknown` record, whatever follows the `:`. */
  lemma TermInfoByIdUnknownPrefix(db: CvDatabase, prefix: string, number: string)
    requires ':' !in prefix && ':' !in number && UpToNul(prefix) !in db.oboPrefixes
    ensures TermInfoById(db, prefix + ":" + number) == Ok(InfoAt(db.infoMap, CvidUnknown))
  {
    SplitAtOnlySeparator(prefix, number, ':');
  }

  /** Whatever follows a NUL in the prefix of an accession is ignored. */
  lemma TermInfoByIdStopsAtNul(db: CvDatabase, prefix: string, junk: string, number: string)
    requires ':' !in prefix && ':' !in junk && ':' !in number
    ensures TermInfoById(db, prefix + ['\0'] + junk + ":" + number) == TermInfoById(db, prefix + ":" + number)
  {
    SplitAtOnlySeparator(prefix + ['\0'] + junk, number, ':');
    SplitAtOnlySeparator(prefix, number, ':');
    UpToNulAppendNul(prefix, junk);
  }

  /** A known prefix followed by no digits fails to convert. */
  lemma TermInfoByIdNoNumber(db: CvDatabase, prefix: string, text: string)
    requires ':' !in prefix && ':' !in text && UpToNul(prefix) in db.oboPrefixes
    requires text == [] || (!IsDigit(text[0]) && !IsSpace(text[0]) && text[0] != '+' && text[0] != '-')
    ensures TermInfoById(db, prefix + ":" + text) == Err(BadLexicalCast)
  {
    SplitAtOnlySeparator(prefix, text, ':');
  }

  /*
   * `cvIsA`. The source recurses without a guard, so it terminates only on an
   * acyclic is-a graph; `rank` is a witness of acyclicity that strictly
   * decreases from each child to each of its parents.
   */

  function Rank(rank: map<int, nat>, c: int): nat {
    if c in rank then rank[c] else 0
  }

  ghost predicate Ranked(db: CvDatabase, rank: map<int, nat>) {
    forall c, j :: c in db.infoMap && 0 <= j < |db.infoMap[c].parentsIsA| ==>
      Rank(rank, db.infoMap[c].parentsIsA[j]) < Rank(rank, c)
  }

  /** `cvIsA(child, parent)`: equal codes, or some is-a parent of the child is-a `parent`. */
  function IsAParent(db: CvDatabase, ghost rank: map<int, nat>, child: int, parent: int): bool
    requires Ranked(db, rank)
    decreases Rank(rank, child), 1
  {
    child == parent || AnyIsA(db, rank, TermInfo(db, child).parentsIsA, parent, Rank(rank, child))
  }

  /** The loop of `cvIsA` over the parents `ps`, each ranked below `bound`. */
  function AnyIsA(db: CvDatabase, ghost rank: map<int, nat>, ps: seq<int>, parent: int, ghost bound: nat): bool
    requires Ranked(db, rank)
    requires forall j :: 0 <= j < |ps| ==> Rank(rank, ps[j]) < bound
    decreases bound, 0, |ps|
  {
    ps != [] && (IsAParent(db, rank, ps[0], parent) || AnyIsA(db, rank, ps[1..], parent, bound))
  }

  lemma {:induction false} AnyIsAIff(db: CvDatabase, rank: map<int, nat>, ps: seq<int>, parent: int, bound: nat)
    requires Ranked(db, rank)
    requires forall j :: 0 <= j < |ps| ==> Rank(rank, ps[j]) < bound
    ensures AnyIsA(db, rank, ps, parent, bound) <==> exists j :: 0 <= j < |ps| && IsAParent(db, rank, ps[j], parent)
    decreases |ps|
  {
    if ps != [] {
      AnyIsAIff(db, rank, ps[1..], parent, bound);
      if exists j :: 0 <= j < |ps| && IsAParent(db, rank, ps[j], parent) {
        var j :| 0 <= j < |ps| && IsAParent(db, rank, ps[j], parent);
        if j > 0 {
          assert ps[1..][j - 1] == ps[j];
        }
      }
    }
  }

  /** Every code is-a itself. */
  lemma IsAReflexive(db: CvDatabase, rank: map<int, nat>, c: int)
    requires Ranked(db, rank)
    ensures IsAParent(db, rank, c, c)
  {
  }

  /** If an is-a parent of `child` is-a `parent`, so is `child`; in particular each is-a parent. */
  lemma IsAThroughParent(db: CvDatabase, rank: map<int, nat>, child: int, j: int, parent: int)
    requires Ranked(db, rank)
    requires child in db.infoMap && 0 <= j < |db.infoMap[child].parentsIsA|
    requires IsAParent(db, rank, db.infoMap[child].parentsIsA[j], parent)
    ensures IsAParent(db, rank, child, parent)
    ensures IsAParent(db, rank, child, db.infoMap[child].parentsIsA[j])
  {
    var ps := db.infoMap[child].parentsIsA;
    AnyIsAIff(db, rank, ps, parent, Rank(rank, child));
    IsAReflexive(db, rank, ps[j]);
    AnyIsAIff(db, rank, ps, ps[j], Rank(rank, child));
  }

  /** A path of is-a steps: each code after the first is an is-a parent of the one before it. */
  ghost predicate IsAPath(db: CvDatabase, path: seq<int>) {
    |path| >= 1 &&
    forall i :: 0 <= i < |path| - 1 ==> path[i] in db.infoMap && path[i + 1] in db.infoMap[path[i]].parentsIsA
  }

  /** An is-a path from `child` to `parent` gives `cvIsA(child, parent)`. */
  lemma {:induction false} PathGivesIsA(db: CvDatabase, rank: map<int, nat>, path: seq<int>)
    requires Ranked(db, rank) && IsAPath(db, path)
    ensures IsAParent(db, rank, path[0], path[|path| - 1])
    decreases |path|
  {
    if |path| == 1 {
      IsAReflexive(db, rank, path[0]);
    } else {
      var tail := path[1..];
      assert IsAPath(db, tail) by {
        forall i | 0 <= i < |tail| - 1
          ensures tail[i] in db.infoMap && tail[i + 1] in db.infoMap[tail[i]].parentsIsA
        {
          assert tail[i] == path[i + 1] && tail[i + 1] == path[i + 2];
        }
      }
      PathGivesIsA(db, rank, tail);
      var ps := db.infoMap[path[0]].parentsIsA;
      var j :| 0 <= j < |ps| && ps[j] == path[1];
      IsAThroughParent(db, rank, path[0], j, path[|path| - 1]);
    }
  }

  /** `cvIsA(child, parent)` is only true along an is-a path from `child` to `parent`. */
  lemma {:induction false} IsAGivesPath(db: CvDatabase, rank: map<int, nat>, child: int, parent: int)
    returns (path: seq<int>)
    requires Ranked(db, rank) && IsAParent(db, rank, child, parent)
    ensures IsAPath(db, path) && path[0] == child && path[|path| - 1] == parent
    decreases Rank(rank, child)
  {
    if child == parent {
      path := [child];
    } else {
      var ps := TermInfo(db, child).parentsIsA;
      AnyIsAIff(db, rank, ps, parent, Rank(rank, child));
      var j :| 0 <= j < |ps| && IsAParent(db, rank, ps[j], parent);
      assert child in db.infoMap;
      var rest := IsAGivesPath(db, rank, ps[j], parent);
      path := [child] + rest;
      assert path[1..] == rest;
    }
  }

  /** `cvIsA` holds exactly along is-a paths. */
  lemma IsAIffPath(db: CvDatabase, rank: map<int, nat>, child: int, parent: int)
    requires Ranked(db, rank)
    ensures IsAParent(db, rank, child, parent) <==>
      exists path :: IsAPath(db, path) && path[0] == child && path[|path| - 1] == parent
  {
    if IsAParent(db, rank, child, parent) {
      var path := IsAGivesPath(db, rank, child, parent);
    }
    if exists path :: IsAPath(db, path) && path[0] == child && path[|path| - 1] == parent {
      var path :| IsAPath(db, path) && path[0] == child && path[|path| - 1] == parent;
      PathGivesIsA(db, rank, path);
    }
  }

  /** `cvIsA` is transitive. */
  lemma IsATransitive(db: CvDatabase, rank: map<int, nat>, a: int, b: int, c: int)
    requires Ranked(db, rank)
    requires IsAParent(db, rank, a, b) && IsAParent(db, rank, b, c)
    ensures IsAParent(db, rank, a, c)
  {
    var p := IsAGivesPath(db, rank, a, b);
    var q := IsAGivesPath(db, rank, b, c);
    var path := p + q[1..];
    assert IsAPath(db, path) by {
      forall i | 0 <= i < |path| - 1
        ensures path[i] in db.infoMap && path[i + 1] in db.infoMap[path[i]].parentsIsA
      {
        if i < |p| - 1 {
          assert path[i] == p[i] && path[i + 1] == p[i + 1];
        } else {
          assert path[i] == q[i - |p| + 1] && path[i + 1] == q[i - |p| + 2];
        }
      }
    }
    PathGivesIsA(db, rank, path);
  }

  /**
   * `CVTermInfo::shortName`: the name, replaced by a synonym only when that
   * synonym is strictly shorter than the best so far, so the first among the
   * shortest wins and the name wins a tie.
   */
  method ShortName(info: CvTermInfo) returns (r: string)
    ensures |r| <= |info.name| && forall j :: 0 <= j < |info.exactSynonyms| ==> |r| <= |info.exactSynonyms[j]|
    ensures (r == info.name && forall j :: 0 <= j < |info.exactSynonyms| ==> |info.exactSynonyms[j]| >= |info.name|)
      || exists j :: 0 <= j < |info.exactSynonyms| && r == info.exactSynonyms[j] && |r| < |info.name| &&
           forall j' :: 0 <= j' < j ==> |info.exactSynonyms[j']| > |r|
  {
    var syns := info.exactSynonyms;
    r := info.name;
    ghost var at := -1;
    var i := 0;
    while i < |syns|
      invariant 0 <= i <= |syns| && -1 <= at < i
      invariant |r| <= |info.name| && forall j :: 0 <= j < i ==> |r| <= |syns[j]|
      invariant at == -1 ==> r == info.name && forall j :: 0 <= j < i ==> |syns[j]| >= |info.name|
      invariant at >= 0 ==> r == syns[at] && |r| < |info.name| && forall j' :: 0 <= j' < at ==> |syns[j']| > |r|
    {
      if |r| > |syns[i]| {
        r := syns[i];
        at := i;
      }
      i := i + 1;
    }
  }

  /** `CVTermInfo::prefix`: the accession up to its first `:`, or all of it. */
  function Prefix(id: string): (r: string)
    ensures |r| <= |id| && r == id[..|r|] && ':' !in r
    ensures |r| < |id| ==> id[|r|] == ':'
  {
    if id == [] || id[0] == ':' then []
    else
      var r := [id[0]] + Prefix(id[1..]);
      assert id[..|r|] == [id[0]] + id[1..][..|r| - 1];
      r
  }

  /** The prefix of an accession from the term table is the ontology prefix. */
  lemma PrefixOfIdString(prefix: string, number: nat)
    requires ':' !in prefix
    ensures Prefix(IdString(prefix, number)) == prefix
  {
    var s := IdString(prefix, number);
    var r := Prefix(s);
    assert |r| == |prefix|;
  }
}
