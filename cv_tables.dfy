/**
 * The tables `writeCpp` emits into the generated source, as rows rather
 * than text: the term table (`termInfos_`), the is-a and part-of relation
 * tables (`relationsIsA_`, `relationsPartOf_`), the exact-synonym table
 * (`relationsExactSynonym_`), the ontology prefixes (`oboPrefixes_`) and
 * the id and version of each ontology written into `initialize()`.
 *
 * An enumerator in a row (such as `MS_mass_spectrometer`) is recorded by the
 * code the enumeration gives it, `EnumValue`; a string in a row is recorded
 * by the text between the quotes of the emitted literal.
 */
module CvTables {
  import opened CvIds
  import opened CvEscape
  import opened CvVersion

  /** A parsed OBO term (the OBO parser is not part of this model). */
  datatype Term = Term(
    prefix: string,
    id: nat,
    name: string,
    def: string,
    parentsIsA: seq<nat>,
    parentsPartOf: seq<nat>,
    exactSynonyms: seq<string>)

  /** A parsed OBO file: its namespace prefix, its header lines, its terms in file order. */
  datatype Obo = Obo(prefix: string, header: seq<string>, terms: seq<Term>)

  /** A row of `termInfos_`. */
  datatype TermInfoRow = TermInfoRow(cvid: int, id: string, name: string, def: string)

  /** A row of `relationsIsA_` or `relationsPartOf_`: child code, parent code. */
  datatype CvidPair = CvidPair(first: int, second: int)

  /** A row of `relationsExactSynonym_`: term code, synonym literal. */
  datatype CvidStringPair = CvidStringPair(first: int, second: string)

  /** The id and version `initialize()` assigns to the ontology with this prefix. */
  datatype CvRow = CvRow(prefix: string, version: string)

  datatype Tables = Tables(
    termInfos: seq<TermInfoRow>,
    relationsIsA: seq<CvidPair>,
    relationsPartOf: seq<CvidPair>,
    relationsExactSynonym: seq<CvidStringPair>,
    cvRows: seq<CvRow>,
    oboPrefixes: seq<string>)

  datatype Relation = IsA | PartOf

  /** `CVID_Unknown`, the first enumerator. */
  const CvidUnknown: int := -1

  /** The row that heads `termInfos_`. */
  const UnknownTermInfoRow: TermInfoRow := TermInfoRow(CvidUnknown, "??:0000000", "CVID_Unknown", "CVID_Unknown")

  /** The row that heads `relationsExactSynonym_`. */
  const UnknownSynonymRow: CvidStringPair := CvidStringPair(CvidUnknown, "Unknown")

  function Parents(t: Term, rel: Relation): seq<nat> {
    match rel
    case IsA => t.parentsIsA
    case PartOf => t.parentsPartOf
  }

  /*
   * The term map of one ontology (`termMaps[index]`): local id to term, a
   * later term with the same id replacing an earlier one.
   */

  function TermMap(terms: seq<Term>): map<nat, Term>
    decreases |terms|
  {
    if terms == [] then map[]
    else TermMap(terms[..|terms| - 1])[terms[|terms| - 1].id := terms[|terms| - 1]]
  }

  /** The term map has a key for exactly the ids of the terms, and maps each to a term with that id. */
  lemma {:induction false} TermMapContents(terms: seq<Term>)
    ensures forall id :: id in TermMap(terms) <==> exists i :: 0 <= i < |terms| && terms[i].id == id
    ensures forall id :: id in TermMap(terms) ==> TermMap(terms)[id].id == id && TermMap(terms)[id] in terms
    decreases |terms|
  {
    if terms != [] {
      var init := terms[..|terms| - 1];
      TermMapContents(init);
      forall id | id in TermMap(terms) ensures exists i :: 0 <= i < |terms| && terms[i].id == id {
        if id != terms[|terms| - 1].id {
          assert id in TermMap(init);
          var i :| 0 <= i < |init| && init[i].id == id;
          assert terms[i] == init[i];
        }
      }
      forall id | exists i :: 0 <= i < |terms| && terms[i].id == id ensures id in TermMap(terms) {
        var i :| 0 <= i < |terms| && terms[i].id == id;
        if i < |init| {
          assert init[i] == terms[i];
        }
      }
    }
  }

  /** The term a key maps to is the last term with that id. */
  lemma {:induction false} TermMapLastWins(terms: seq<Term>, i: int)
    requires 0 <= i < |terms|
    requires forall j :: i < j < |terms| ==> terms[j].id != terms[i].id
    ensures terms[i].id in TermMap(terms) && TermMap(terms)[terms[i].id] == terms[i]
    decreases |terms|
  {
    if i < |terms| - 1 {
      var init := terms[..|terms| - 1];
      TermMapLastWins(init, i);
    }
  }

  /**
   * The nested loops that fill `termMaps`: one map per ontology, each entry
   * written in term order.
   */
  method BuildTermMaps(obos: seq<Obo>) returns (termMaps: seq<map<nat, Term>>)
    ensures |termMaps| == |obos|
    ensures forall k :: 0 <= k < |obos| ==> termMaps[k] == TermMap(obos[k].terms)
  {
    termMaps := seq(|obos|, _ => map[]);
    var k := 0;
    while k < |obos|
      invariant 0 <= k <= |obos| && |termMaps| == |obos|
      invariant forall k' :: 0 <= k' < k ==> termMaps[k'] == TermMap(obos[k'].terms)
    {
      var terms := obos[k].terms;
      termMaps := termMaps[k := map[]];
      var i := 0;
      while i < |terms|
        invariant 0 <= i <= |terms| && |termMaps| == |obos|
        invariant forall k' :: 0 <= k' < k ==> termMaps[k'] == TermMap(obos[k'].terms)
        invariant termMaps[k] == TermMap(terms[..i])
      {
        assert terms[..i + 1][..i] == terms[..i];
        termMaps := termMaps[k := termMaps[k][terms[i].id := terms[i]]];
        i := i + 1;
      }
      assert terms[..|terms|] == terms;
      k := k + 1;
    }
  }

  /*
   * The tables are built by visiting every term of every ontology in input
   * order; `PerTerm` concatenates the rows a function gives each term, the
   * term's ontology position being the second argument.
   */

  function PerTermIn<R>(terms: seq<Term>, k: nat, f: (Term, nat) -> seq<R>): seq<R>
    decreases |terms|
  {
    if terms == [] then []
    else PerTermIn(terms[..|terms| - 1], k, f) + f(terms[|terms| - 1], k)
  }

  function PerTerm<R>(obos: seq<Obo>, f: (Term, nat) -> seq<R>): seq<R>
    decreases |obos|
  {
    if obos == [] then []
    else PerTerm(obos[..|obos| - 1], f) + PerTermIn(obos[|obos| - 1].terms, |obos| - 1, f)
  }

  /** A row of `PerTermIn` comes from some term, and every term's rows are there. */
  lemma PerTermInMembership<R>(terms: seq<Term>, k: nat, f: (Term, nat) -> seq<R>, r: R)
    ensures r in PerTermIn(terms, k, f) <==> exists i :: 0 <= i < |terms| && r in f(terms[i], k)
  {
    if r in PerTermIn(terms, k, f) {
      var i := PerTermInOrigin(terms, k, f, r);
    }
    if exists i :: 0 <= i < |terms| && r in f(terms[i], k) {
      var i :| 0 <= i < |terms| && r in f(terms[i], k);
      PerTermInHas(terms, k, f, r, i);
    }
  }

  /** The term a row of `PerTermIn` comes from. */
  lemma {:induction false} PerTermInOrigin<R>(terms: seq<Term>, k: nat, f: (Term, nat) -> seq<R>, r: R) returns (i: int)
    requires r in PerTermIn(terms, k, f)
    ensures 0 <= i < |terms| && r in f(terms[i], k)
    decreases |terms|
  {
    var n := |terms| - 1;
    if r in f(terms[n], k) {
      i := n;
    } else {
      i := PerTermInOrigin(terms[..n], k, f, r);
      assert terms[..n][i] == terms[i];
    }
  }

  /** Every row of every term is in `PerTermIn`. */
  lemma {:induction false} PerTermInHas<R>(terms: seq<Term>, k: nat, f: (Term, nat) -> seq<R>, r: R, i: int)
    requires 0 <= i < |terms| && r in f(terms[i], k)
    ensures r in PerTermIn(terms, k, f)
    decreases |terms|
  {
    var n := |terms| - 1;
    if i < n {
      assert terms[..n][i] == terms[i];
      PerTermInHas(terms[..n], k, f, r, i);
    }
  }

  /** A row of `PerTerm` comes from some term of some ontology, and every term's rows are there. */
  lemma PerTermMembership<R>(obos: seq<Obo>, f: (Term, nat) -> seq<R>, r: R)
    ensures r in PerTerm(obos, f) <==>
      exists k, i :: 0 <= k < |obos| && 0 <= i < |obos[k].terms| && r in f(obos[k].terms[i], k)
  {
    if r in PerTerm(obos, f) {
      var k, i := PerTermOrigin(obos, f, r);
    }
    if exists k, i :: 0 <= k < |obos| && 0 <= i < |obos[k].terms| && r in f(obos[k].terms[i], k) {
      var k, i :| 0 <= k < |obos| && 0 <= i < |obos[k].terms| && r in f(obos[k].terms[i], k);
      PerTermHas(obos, f, r, k, i);
    }
  }

  /** The ontology and term a row of `PerTerm` comes from. */
  lemma {:induction false} PerTermOrigin<R>(obos: seq<Obo>, f: (Term, nat) -> seq<R>, r: R) returns (k: int, i: int)
    requires r in PerTerm(obos, f)
    ensures 0 <= k < |obos| && 0 <= i < |obos[k].terms| && r in f(obos[k].terms[i], k)
    decreases |obos|
  {
    var n := |obos| - 1;
    if r in PerTermIn(obos[n].terms, n, f) {
      k := n;
      i := PerTermInOrigin(obos[n].terms, n, f, r);
    } else {
      k, i := PerTermOrigin(obos[..n], f, r);
      assert obos[..n][k] == obos[k];
    }
  }

  /** Every row of every term of every ontology is in `PerTerm`. */
  lemma {:induction false} PerTermHas<R>(obos: seq<Obo>, f: (Term, nat) -> seq<R>, r: R, k: int, i: int)
    requires 0 <= k < |obos| && 0 <= i < |obos[k].terms| && r in f(obos[k].terms[i], k)
    ensures r in PerTerm(obos, f)
    decreases |obos|
  {
    var n := |obos| - 1;
    if k < n {
      assert obos[..n][k] == obos[k];
      PerTermHas(obos[..n], f, r, k, i);
    } else {
      PerTermInHas(obos[n].terms, n, f, r, i);
    }
  }

  /** One more term extends `PerTermIn` by that term's rows. */
  lemma PerTermInSnoc<R>(terms: seq<Term>, i: int, k: nat, f: (Term, nat) -> seq<R>)
    requires 0 <= i < |terms|
    ensures PerTermIn(terms[..i + 1], k, f) == PerTermIn(terms[..i], k, f) + f(terms[i], k)
  {
    assert terms[..i + 1][..i] == terms[..i];
  }

  /** One more ontology extends `PerTerm` by the rows of all its terms. */
  lemma PerTermSnoc<R>(obos: seq<Obo>, k: int, f: (Term, nat) -> seq<R>)
    requires 0 <= k < |obos|
    ensures PerTerm(obos[..k + 1], f) == PerTerm(obos[..k], f) + PerTermIn(obos[k].terms, k, f)
  {
    assert obos[..k + 1][..k] == obos[..k];
  }

  /*
   * The rows a single term contributes to each table.
   */

  /** The `termInfos_` row of a term: its code, its accession, and its name and definition escaped. */
  function InfoRow(t: Term, k: nat): TermInfoRow {
    TermInfoRow(EnumValue(t.id, k), IdString(t.prefix, t.id), Escaped(t.name, EscapeChars), Escaped(t.def, EscapeChars))
  }

  function InfoRows(t: Term, k: nat): seq<TermInfoRow> {
    [InfoRow(t, k)]
  }

  /** One row per parent, in the term's order, pairing the term's code with the parent's. */
  function ParentRows(t: Term, k: nat, rel: Relation): (rows: seq<CvidPair>)
    ensures |rows| == |Parents(t, rel)|
    ensures forall j :: 0 <= j < |rows| ==>
      rows[j] == CvidPair(EnumValue(t.id, k), EnumValue(Parents(t, rel)[j], k))
  {
    var ps := Parents(t, rel);
    seq(|ps|, j requires 0 <= j < |ps| => CvidPair(EnumValue(t.id, k), EnumValue(ps[j], k)))
  }

  function IsARows(t: Term, k: nat): seq<CvidPair> {
    ParentRows(t, k, IsA)
  }

  function PartOfRows(t: Term, k: nat): seq<CvidPair> {
    ParentRows(t, k, PartOf)
  }

  function RelationRows(rel: Relation): (Term, nat) -> seq<CvidPair> {
    match rel
    case IsA => IsARows
    case PartOf => PartOfRows
  }

  /** One row per exact synonym, in the term's order; the synonym is written without escaping. */
  function SynonymRows(t: Term, k: nat): (rows: seq<CvidStringPair>)
    ensures |rows| == |t.exactSynonyms|
    ensures forall j :: 0 <= j < |rows| ==> rows[j] == CvidStringPair(EnumValue(t.id, k), t.exactSynonyms[j])
  {
    seq(|t.exactSynonyms|, j requires 0 <= j < |t.exactSynonyms| => CvidStringPair(EnumValue(t.id, k), t.exactSynonyms[j]))
  }

  /*
   * The enumerators `writeHpp` declares in `enum CVID`.
   */

  /**
   * The enumerators a term declares: `enumName` of its prefix and name and,
   * in the ontology whose prefix is `MS` only, one alias `enumName` of its
   * prefix and each exact synonym, in the term's order.
   */
  function TermEnumerators(t: Term, oboPrefix: string): (names: seq<string>)
    ensures |names| == 1 + (if oboPrefix == "MS" then |t.exactSynonyms| else 0)
    ensures names[0] == EnumName(t.prefix, t.name)
    ensures oboPrefix == "MS" ==>
      forall j :: 0 <= j < |t.exactSynonyms| ==> names[1 + j] == EnumName(t.prefix, t.exactSynonyms[j])
  {
    [EnumName(t.prefix, t.name)]
    + if oboPrefix == "MS" then seq(|t.exactSynonyms|, j requires 0 <= j < |t.exactSynonyms| => EnumName(t.prefix, t.exactSynonyms[j]))
      else []
  }

  /** A name is declared by a term exactly when it is the term's own enumerator or, in `MS`, one of its aliases. */
  lemma TermEnumeratorsContents(t: Term, oboPrefix: string, name: string)
    ensures name in TermEnumerators(t, oboPrefix) <==>
      name == EnumName(t.prefix, t.name)
      || (oboPrefix == "MS" && exists j :: 0 <= j < |t.exactSynonyms| && name == EnumName(t.prefix, t.exactSynonyms[j]))
  {
    var names := TermEnumerators(t, oboPrefix);
    if name in names && name != EnumName(t.prefix, t.name) {
      var n :| 0 <= n < |names| && names[n] == name;
      assert names[1 + (n - 1)] == name;
    }
  }

  /** The enumerators of the term at position `k`, applied the way `PerTerm` visits terms. */
  function EnumeratorsOf(obos: seq<Obo>): (Term, nat) -> seq<string> {
    (t: Term, k: nat) => TermEnumerators(t, if k < |obos| then obos[k].prefix else "")
  }

  /** Every enumerator of `enum CVID` in declaration order, `CVID_Unknown` first. */
  function Enumerators(obos: seq<Obo>): seq<string> {
    ["CVID_Unknown"] + PerTerm(obos, EnumeratorsOf(obos))
  }

  /** The enumeration declares `CVID_Unknown` and exactly the enumerators of its terms. */
  lemma EnumeratorsContents(obos: seq<Obo>, name: string)
    ensures name in Enumerators(obos) <==>
      name == "CVID_Unknown"
      || exists k, i :: 0 <= k < |obos| && 0 <= i < |obos[k].terms| && name in TermEnumerators(obos[k].terms[i], obos[k].prefix)
  {
    PerTermMembership(obos, EnumeratorsOf(obos), name);
  }

  /*
   * The tables.
   */

  function TermInfoTable(obos: seq<Obo>): seq<TermInfoRow> {
    [UnknownTermInfoRow] + PerTerm(obos, InfoRows)
  }

  function RelationTable(obos: seq<Obo>, rel: Relation): seq<CvidPair> {
    PerTerm(obos, RelationRows(rel))
  }

  function SynonymTable(obos: seq<Obo>): seq<CvidStringPair> {
    [UnknownSynonymRow] + PerTerm(obos, SynonymRows)
  }

  function CvRows(obos: seq<Obo>): seq<CvRow> {
    seq(|obos|, k requires 0 <= k < |obos| => CvRow(obos[k].prefix, HeaderVersion(obos[k].header)))
  }

  function OboPrefixes(obos: seq<Obo>): seq<string> {
    seq(|obos|, k requires 0 <= k < |obos| => obos[k].prefix)
  }

  function GeneratedTables(obos: seq<Obo>): Tables {
    Tables(TermInfoTable(obos), RelationTable(obos, IsA), RelationTable(obos, PartOf),
           SynonymTable(obos), CvRows(obos), OboPrefixes(obos))
  }

  /** Some term of the same ontology has local id `p`. */
  predicate Resolves(terms: seq<Term>, p: nat) {
    exists i :: 0 <= i < |terms| && terms[i].id == p
  }

  /**
   * Every parent id names a term of its own ontology. The generator dereferences
   * `termMaps[index][parent]` without a check, so this is what it demands.
   */
  predicate ParentsResolve(obos: seq<Obo>, rel: Relation) {
    forall k, i, j :: 0 <= k < |obos| && 0 <= i < |obos[k].terms| && 0 <= j < |Parents(obos[k].terms[i], rel)| ==>
      Resolves(obos[k].terms, Parents(obos[k].terms[i], rel)[j])
  }

  /*
   * The emission loops of `writeCpp`, one method per table.
   */

  /** The inner loop of the `termInfos_` emission: the rows of one ontology's terms. */
  method EmitTermInfosOf(terms: seq<Term>, k: nat) returns (rows: seq<TermInfoRow>)
    ensures rows == PerTermIn(terms, k, InfoRows)
  {
    rows := [];
    var i := 0;
    while i < |terms|
      invariant 0 <= i <= |terms|
      invariant rows == PerTermIn(terms[..i], k, InfoRows)
    {
      var t := terms[i];
      var name := EscapeCopy(t.name);
      var def := EscapeCopy(t.def);
      rows := rows + [TermInfoRow(EnumValue(t.id, k), IdString(t.prefix, t.id), name, def)];
      PerTermInSnoc(terms, i, k, InfoRows);
      i := i + 1;
    }
    assert terms[..|terms|] == terms;
  }

  /** The loop that writes the rows of `termInfos_` after the `CVID_Unknown` row. */
  method EmitTermInfos(obos: seq<Obo>) returns (rows: seq<TermInfoRow>)
    ensures rows == TermInfoTable(obos)
  {
    var termRows: seq<TermInfoRow> := [];
    var k := 0;
    while k < |obos|
      invariant 0 <= k <= |obos|
      invariant termRows == PerTerm(obos[..k], InfoRows)
    {
      var more := EmitTermInfosOf(obos[k].terms, k);
      termRows := termRows + more;
      PerTermSnoc(obos, k, InfoRows);
      k := k + 1;
    }
    assert obos[..|obos|] == obos;
    rows := [UnknownTermInfoRow] + termRows;
  }

  /**
   * The innermost loop of the relation emission: for each parent id of `t`,
   * the parent's code is that of the term the term map gives.
   */
  method EmitParentRows(t: Term, k: nat, terms: seq<Term>, termMap: map<nat, Term>, rel: Relation)
    returns (rows: seq<CvidPair>)
    requires termMap == TermMap(terms)
    requires forall j :: 0 <= j < |Parents(t, rel)| ==> Resolves(terms, Parents(t, rel)[j])
    ensures rows == ParentRows(t, k, rel)
  {
    TermMapContents(terms);
    var parents := Parents(t, rel);
    rows := [];
    var j := 0;
    while j < |parents|
      invariant 0 <= j <= |parents|
      invariant rows == ParentRows(t, k, rel)[..j]
    {
      assert Resolves(terms, parents[j]);
      var parent := termMap[parents[j]];
      rows := rows + [CvidPair(EnumValue(t.id, k), EnumValue(parent.id, k))];
      assert ParentRows(t, k, rel)[..j + 1] == ParentRows(t, k, rel)[..j] + [ParentRows(t, k, rel)[j]];
      j := j + 1;
    }
  }

  /** The middle loop of the relation emission: the rows of one ontology's terms. */
  method EmitRelationsOf(terms: seq<Term>, k: nat, termMap: map<nat, Term>, rel: Relation)
    returns (rows: seq<CvidPair>)
    requires termMap == TermMap(terms)
    requires forall i, j :: 0 <= i < |terms| && 0 <= j < |Parents(terms[i], rel)| ==> Resolves(terms, Parents(terms[i], rel)[j])
    ensures rows == PerTermIn(terms, k, RelationRows(rel))
  {
    rows := [];
    var i := 0;
    while i < |terms|
      invariant 0 <= i <= |terms|
      invariant rows == PerTermIn(terms[..i], k, RelationRows(rel))
    {
      var more := EmitParentRows(terms[i], k, terms, termMap, rel);
      rows := rows + more;
      assert more == RelationRows(rel)(terms[i], k);
      PerTermInSnoc(terms, i, k, RelationRows(rel));
      i := i + 1;
    }
    assert terms[..|terms|] == terms;
  }

  /** The loop that writes `relationsIsA_` or `relationsPartOf_`. */
  method EmitRelations(obos: seq<Obo>, termMaps: seq<map<nat, Term>>, rel: Relation) returns (rows: seq<CvidPair>)
    requires |termMaps| == |obos|
    requires forall k :: 0 <= k < |obos| ==> termMaps[k] == TermMap(obos[k].terms)
    requires ParentsResolve(obos, rel)
    ensures rows == RelationTable(obos, rel)
  {
    rows := [];
    var k := 0;
    while k < |obos|
      invariant 0 <= k <= |obos|
      invariant rows == PerTerm(obos[..k], RelationRows(rel))
    {
      var more := EmitRelationsOf(obos[k].terms, k, termMaps[k], rel);
      rows := rows + more;
      PerTermSnoc(obos, k, RelationRows(rel));
      k := k + 1;
    }
    assert obos[..|obos|] == obos;
  }

  /** The inner loops of the synonym emission: the rows of one ontology's terms. */
  method EmitSynonymsOf(terms: seq<Term>, k: nat) returns (rows: seq<CvidStringPair>)
    ensures rows == PerTermIn(terms, k, SynonymRows)
  {
    rows := [];
    var i := 0;
    while i < |terms|
      invariant 0 <= i <= |terms|
      invariant rows == PerTermIn(terms[..i], k, SynonymRows)
    {
      var t := terms[i];
      ghost var before := rows;
      var j := 0;
      while j < |t.exactSynonyms|
        invariant 0 <= j <= |t.exactSynonyms|
        invariant rows == before + SynonymRows(t, k)[..j]
      {
        rows := rows + [CvidStringPair(EnumValue(t.id, k), t.exactSynonyms[j])];
        assert SynonymRows(t, k)[..j + 1] == SynonymRows(t, k)[..j] + [SynonymRows(t, k)[j]];
        j := j + 1;
      }
      assert SynonymRows(t, k)[..j] == SynonymRows(t, k);
      PerTermInSnoc(terms, i, k, SynonymRows);
      i := i + 1;
    }
    assert terms[..|terms|] == terms;
  }

  /** The loop that writes `relationsExactSynonym_` after the `CVID_Unknown` row. */
  method EmitSynonyms(obos: seq<Obo>) returns (rows: seq<CvidStringPair>)
    ensures rows == SynonymTable(obos)
  {
    var termRows: seq<CvidStringPair> := [];
    var k := 0;
    while k < |obos|
      invariant 0 <= k <= |obos|
      invariant termRows == PerTerm(obos[..k], SynonymRows)
    {
      var more := EmitSynonymsOf(obos[k].terms, k);
      termRows := termRows + more;
      PerTermSnoc(obos, k, SynonymRows);
      k := k + 1;
    }
    assert obos[..|obos|] == obos;
    rows := [UnknownSynonymRow] + termRows;
  }

  /** The enumerators `writeHpp` writes for one term: its own, then in `MS` one alias per exact synonym. */
  method EmitTermEnumerators(t: Term, oboPrefix: string) returns (names: seq<string>)
    ensures names == TermEnumerators(t, oboPrefix)
  {
    ghost var declared := TermEnumerators(t, oboPrefix);
    names := [EnumName(t.prefix, t.name)];
    if oboPrefix == "MS" {
      var j := 0;
      while j < |t.exactSynonyms|
        invariant 0 <= j <= |t.exactSynonyms|
        invariant names == declared[..1 + j]
      {
        names := names + [EnumName(t.prefix, t.exactSynonyms[j])];
        assert declared[..1 + j + 1] == declared[..1 + j] + [declared[1 + j]];
        j := j + 1;
      }
      assert declared[..1 + j] == declared;
    }
  }

  /** The inner loop of `writeHpp`'s enumeration: the enumerators of ontology `k`'s terms. */
  method EmitEnumeratorsOf(obos: seq<Obo>, k: nat) returns (names: seq<string>)
    requires k < |obos|
    ensures names == PerTermIn(obos[k].terms, k, EnumeratorsOf(obos))
  {
    var terms := obos[k].terms;
    names := [];
    var i := 0;
    while i < |terms|
      invariant 0 <= i <= |terms|
      invariant names == PerTermIn(terms[..i], k, EnumeratorsOf(obos))
    {
      var more := EmitTermEnumerators(terms[i], obos[k].prefix);
      names := names + more;
      PerTermInSnoc(terms, i, k, EnumeratorsOf(obos));
      i := i + 1;
    }
    assert terms[..|terms|] == terms;
  }

  /** The loops that write the enumerators of `enum CVID` after `CVID_Unknown`. */
  method EmitEnumerators(obos: seq<Obo>) returns (names: seq<string>)
    ensures names == Enumerators(obos)
  {
    var termNames: seq<string> := [];
    var k := 0;
    while k < |obos|
      invariant 0 <= k <= |obos|
      invariant termNames == PerTerm(obos[..k], EnumeratorsOf(obos))
    {
      var more := EmitEnumeratorsOf(obos, k);
      termNames := termNames + more;
      PerTermSnoc(obos, k, EnumeratorsOf(obos));
      k := k + 1;
    }
    assert obos[..|obos|] == obos;
    names := ["CVID_Unknown"] + termNames;
  }

  /** The loop that writes each ontology's id and scanned version into `initialize()`. */
  method EmitCvRows(obos: seq<Obo>) returns (rows: seq<CvRow>)
    ensures rows == CvRows(obos)
  {
    rows := [];
    var k := 0;
    while k < |obos|
      invariant 0 <= k <= |obos|
      invariant rows == CvRows(obos[..k])
    {
      var version := ScanVersion(obos[k].header);
      rows := rows + [CvRow(obos[k].prefix, version)];
      k := k + 1;
      assert obos[..k][..k - 1] == obos[..k - 1];
    }
    assert obos[..|obos|] == obos;
  }

  /** The loop that writes `oboPrefixes_`. */
  method EmitOboPrefixes(obos: seq<Obo>) returns (prefixes: seq<string>)
    ensures prefixes == OboPrefixes(obos)
  {
    prefixes := [];
    var k := 0;
    while k < |obos|
      invariant 0 <= k <= |obos|
      invariant prefixes == OboPrefixes(obos[..k])
    {
      prefixes := prefixes + [obos[k].prefix];
      k := k + 1;
    }
    assert obos[..|obos|] == obos;
  }

  /** `writeCpp`, reduced to the tables it writes. */
  method GenerateTables(obos: seq<Obo>) returns (tables: Tables)
    requires ParentsResolve(obos, IsA) && ParentsResolve(obos, PartOf)
    ensures tables == GeneratedTables(obos)
  {
    var termInfos := EmitTermInfos(obos);
    var termMaps := BuildTermMaps(obos);
    var isA := EmitRelations(obos, termMaps, IsA);
    var partOf := EmitRelations(obos, termMaps, PartOf);
    var synonyms := EmitSynonyms(obos);
    var cvRows := EmitCvRows(obos);
    var prefixes := EmitOboPrefixes(obos);
    tables := Tables(termInfos, isA, partOf, synonyms, cvRows, prefixes);
  }
}
