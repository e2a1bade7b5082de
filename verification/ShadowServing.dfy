/**
 * The shadow serving table: the public table with the points of the policy's buildings replaced, and its text-search
 * projection.
 */
module ShadowServing {
  import opened Sequences
  import opened Sql
  import opened Candidates
  import opened GuardedPolicy

  // ---- the select list ----

  datatype Expression = Copy(column: string) | CandidatePoint(column: string, transformed: bool)

  datatype SelectList = Columns(expressions: seq<Expression>) | MissingColumn(message: string)

  function ExpressionFor(column: string): Expression {
    if column == "pt_5179" then CandidatePoint(column, false)
    else if column == "pt_4326" then CandidatePoint(column, true)
    else Copy(column)
  }

  function ColumnOf(e: Expression): string { e.column }

  /** One expression per column, in order, each named after its column. */
  method ShadowTargetSelectExpressions(columns: seq<string>) returns (r: SelectList)
    ensures r.Columns? <==> "bd_mgt_sn" in columns && "pt_5179" in columns && "pt_4326" in columns
    ensures r.Columns? ==>
      && |r.expressions| == |columns|
      && forall i :: 0 <= i < |columns| ==>
           r.expressions[i] == ExpressionFor(columns[i]) && ColumnOf(r.expressions[i]) == columns[i]
  {
    if "bd_mgt_sn" !in columns {
      return MissingColumn("mv_geocode_target must contain bd_mgt_sn");
    }
    if "pt_5179" !in columns || "pt_4326" !in columns {
      return MissingColumn("mv_geocode_target must contain pt_5179 and pt_4326");
    }
    var expressions: seq<Expression> := [];
    for i := 0 to |columns|
      invariant |expressions| == i
      invariant forall k :: 0 <= k < i ==> expressions[k] == ExpressionFor(columns[k])
    {
      if columns[i] == "pt_5179" {
        expressions := expressions + [CandidatePoint(columns[i], false)];
      } else if columns[i] == "pt_4326" {
        expressions := expressions + [CandidatePoint(columns[i], true)];
      } else {
        expressions := expressions + [Copy(columns[i])];
      }
    }
    return Columns(expressions);
  }

  // ---- the shadow table ----

  /** The value of an expression for a public row, the policy row joined to it and the candidate joined to that. */
  function Evaluate(e: Expression, mv: Row, policy: Option<string>, candidate: Option<BestRow>,
                    transform: Geometry -> Geometry): Value
  {
    var public := if e.column in mv then mv[e.column] else Null;
    match e
    case Copy(_) => public
    case CandidatePoint(_, transformed) =>
      if policy.None? then public
      else if candidate.None? then Null
      else if transformed then Point(transform(candidate.value.raw.point))
      else Point(candidate.value.raw.point)
  }

  function SelectRow(columns: seq<string>, mv: Row, policy: Option<string>, candidate: Option<BestRow>,
                     transform: Geometry -> Geometry): Row
  {
    map column | column in columns :: Evaluate(ExpressionFor(column), mv, policy, candidate, transform)
  }

  function PolicyBds(config: Config, features: seq<Feature>): seq<string> {
    if features == [] then []
    else (if HoldAll(Clauses(config), features[0]) == True then [features[0].bdMgtSn] else [])
         + PolicyBds(config, features[1..])
  }

  /** `LEFT JOIN best AS c ON c.bd_mgt_sn = p.bd_mgt_sn` for one joined policy row. */
  function JoinCandidates(columns: seq<string>, mv: Row, bd: string, best: seq<BestRow>,
                          transform: Geometry -> Geometry): seq<Row>
  {
    var cs := Matches(best, (c: BestRow) => c.raw.bdMgtSn == bd);
    if cs == [] then [SelectRow(columns, mv, Some(bd), None, transform)]
    else seq(|cs|, i requires 0 <= i < |cs| => SelectRow(columns, mv, Some(bd), Some(cs[i]), transform))
  }

  function JoinPolicies(columns: seq<string>, mv: Row, ps: seq<string>, best: seq<BestRow>,
                        transform: Geometry -> Geometry): seq<Row>
  {
    if ps == [] then []
    else JoinCandidates(columns, mv, ps[0], best, transform) + JoinPolicies(columns, mv, ps[1..], best, transform)
  }

  /** `mv LEFT JOIN policy AS p ON p.bd_mgt_sn = mv.bd_mgt_sn LEFT JOIN best ...` for one public row. */
  function ShadowRows(columns: seq<string>, mv: Row, policy: seq<string>, best: seq<BestRow>,
                      transform: Geometry -> Geometry): seq<Row>
  {
    var ps := if BdOf(mv).None? then [] else Matches(policy, (p: string) => p == BdOf(mv).value);
    if ps == [] then [SelectRow(columns, mv, None, None, transform)]
    else JoinPolicies(columns, mv, ps, best, transform)
  }

  function ShadowTable(columns: seq<string>, mv: seq<Row>, policy: seq<string>, best: seq<BestRow>,
                       transform: Geometry -> Geometry): seq<Row>
  {
    if mv == [] then []
    else ShadowRows(columns, mv[0], policy, best, transform) + ShadowTable(columns, mv[1..], policy, best, transform)
  }

  // ---- the shadow table is the public one with some points replaced ----

  ghost predicate CoveredByBest(policy: seq<string>, best: seq<BestRow>) {
    forall p :: p in policy ==> exists c :: c in best && c.raw.bdMgtSn == p
  }

  /** A public row of exactly these columns. */
  ghost predicate RowOf(columns: seq<string>, row: Row) {
    forall column :: column in row <==> column in columns
  }

  /** The shadow row of a public row: the same row, or the same row with the two points of its building's best
      candidate. */
  ghost predicate Shadows(shadow: Row, mv: Row, policy: seq<string>, best: seq<BestRow>,
                          transform: Geometry -> Geometry)
  {
    if BdOf(mv).Some? && BdOf(mv).value in policy then
      exists c :: c in best && c.raw.bdMgtSn == BdOf(mv).value
        && shadow == mv["pt_5179" := Point(c.raw.point)]["pt_4326" := Point(transform(c.raw.point))]
    else shadow == mv
  }

  lemma SelectCopies(columns: seq<string>, mv: Row, transform: Geometry -> Geometry)
    requires RowOf(columns, mv)
    ensures SelectRow(columns, mv, None, None, transform) == mv
  {
  }

  lemma SelectReplaces(columns: seq<string>, mv: Row, bd: string, c: BestRow, transform: Geometry -> Geometry)
    requires RowOf(columns, mv) && "pt_5179" in columns && "pt_4326" in columns
    ensures SelectRow(columns, mv, Some(bd), Some(c), transform)
         == mv["pt_5179" := Point(c.raw.point)]["pt_4326" := Point(transform(c.raw.point))]
  {
  }

  /** Each public row has exactly one shadow row. */
  lemma OneShadowRow(columns: seq<string>, mv: Row, policy: seq<string>, best: seq<BestRow>,
                     transform: Geometry -> Geometry)
    requires RowOf(columns, mv) && "pt_5179" in columns && "pt_4326" in columns
    requires Distinct(policy) && DistinctBest(best) && CoveredByBest(policy, best)
    ensures var rows := ShadowRows(columns, mv, policy, best, transform);
      |rows| == 1 && Shadows(rows[0], mv, policy, best, transform)
  {
    SelectCopies(columns, mv, transform);
    if BdOf(mv).Some? {
      var bd := BdOf(mv).value;
      var on := (p: string) => p == bd;
      var ps := Matches(policy, on);
      OneMatch(policy, on);
      if bd in policy {
        CountZero(on, policy);
        assert on(bd);
        assert ps == [bd];
        var onC := (c: BestRow) => c.raw.bdMgtSn == bd;
        var cs := Matches(best, onC);
        OneMatch(best, onC);
        var c :| c in best && c.raw.bdMgtSn == bd;
        CountZero(onC, best);
        assert onC(c);
        assert |cs| == 1;
        SelectReplaces(columns, mv, bd, cs[0], transform);
        assert JoinCandidates(columns, mv, bd, best, transform)
          == [SelectRow(columns, mv, Some(bd), Some(cs[0]), transform)];
        assert JoinPolicies(columns, mv, ps, best, transform) == JoinCandidates(columns, mv, bd, best, transform) + [];
      } else {
        CountZero(on, policy);
        assert ps == [];
      }
    }
  }

  /** Row for row a shadow of the public table. */
  ghost predicate AllShadow(shadow: seq<Row>, mv: seq<Row>, policy: seq<string>, best: seq<BestRow>,
                            transform: Geometry -> Geometry)
  {
    |shadow| == |mv| && forall i :: 0 <= i < |mv| ==> Shadows(shadow[i], mv[i], policy, best, transform)
  }

  lemma AllShadowCons(first: Row, rest: seq<Row>, mv: seq<Row>, policy: seq<string>, best: seq<BestRow>,
                      transform: Geometry -> Geometry)
    requires mv != [] && Shadows(first, mv[0], policy, best, transform)
    requires AllShadow(rest, mv[1..], policy, best, transform)
    ensures AllShadow([first] + rest, mv, policy, best, transform)
  {
    var shadow := [first] + rest;
    forall i | 0 <= i < |mv| ensures Shadows(shadow[i], mv[i], policy, best, transform) {
      assert i > 0 ==> shadow[i] == rest[i - 1] && mv[i] == mv[1..][i - 1];
    }
  }

  /** The shadow table is in bijection with the public one, row for row. */
  lemma {:induction false} ShadowIsBijective(columns: seq<string>, mv: seq<Row>, policy: seq<string>,
                                             best: seq<BestRow>, transform: Geometry -> Geometry)
    requires forall i :: 0 <= i < |mv| ==> RowOf(columns, mv[i])
    requires "pt_5179" in columns && "pt_4326" in columns
    requires Distinct(policy) && DistinctBest(best) && CoveredByBest(policy, best)
    ensures AllShadow(ShadowTable(columns, mv, policy, best, transform), mv, policy, best, transform)
  {
    if mv != [] {
      OneShadowRow(columns, mv[0], policy, best, transform);
      ShadowIsBijective(columns, mv[1..], policy, best, transform);
      var first := ShadowRows(columns, mv[0], policy, best, transform);
      assert first == [first[0]];
      AllShadowCons(first[0], ShadowTable(columns, mv[1..], policy, best, transform), mv, policy, best, transform);
    }
  }

  // ---- what follows from it ----

  predicate HasPoint(row: Row, column: string) { column in row && row[column].Point? }

  function Points(rows: seq<Row>, column: string): nat { Count((row: Row) => HasPoint(row, column), rows) }

  /** No point is lost in any column, and none but the two point columns changes, and those only for the policy's
      buildings. */
  lemma ShadowKeepsTheRest(shadow: Row, mv: Row, policy: seq<string>, best: seq<BestRow>,
                           transform: Geometry -> Geometry)
    requires Shadows(shadow, mv, policy, best, transform)
    ensures forall column :: column in mv && mv[column].Point? ==> column in shadow && shadow[column].Point?
    ensures forall column :: column != "pt_5179" && column != "pt_4326" ==>
      (column in shadow <==> column in mv) && (column in mv ==> shadow[column] == mv[column])
    ensures shadow != mv ==> BdOf(mv).Some? && BdOf(mv).value in policy
  {
  }

  function Left(s: string, n: nat): string { if |s| <= n then s else s[..n] }

  function Truncated(row: Row, column: string, n: nat): Value {
    if column in row && row[column].Text? then Text(Left(row[column].text, n)) else Null
  }

  function Plain(row: Row, column: string): Value { if column in row then row[column] else Null }

  // ---- the text-search tables ----

  datatype Column =
    | BdMgtSn | SidoCd | SigCd | BjdCd | SiNm | SggNm | RnNrm | BuldNmNrm | SigunguBuldNmNrm
    | BuldMnnm | BuldSlno | BuldSeCd | PtSource

  type SearchRow = map<Column, Value>

  /** A table of the database: what its columns are called, and its rows. */
  datatype SearchTable = SearchTable(columns: seq<Column>, rows: seq<SearchRow>)

  /** The SELECT of the public materialized view. */
  const PUBLIC_COLUMNS: seq<Column> :=
    [BdMgtSn, SidoCd, SigCd, BjdCd, SiNm, SggNm, RnNrm, BuldNmNrm, SigunguBuldNmNrm, BuldMnnm, BuldSlno,
     BuldSeCd, PtSource]

  /** The SELECT of the rehearsal, which has the columns that the view had before migration 0020. */
  const SHADOW_COLUMNS: seq<Column> :=
    [BdMgtSn, SidoCd, SigCd, BjdCd, SiNm, SggNm, RnNrm, BuldNmNrm, SigunguBuldNmNrm, BuldMnnm, PtSource]

  /** The column of the public table that a cell is taken from. */
  function SourceOf(column: Column): (source: string)
    ensures |source| != 7
  {
    match column
    case BdMgtSn => "bd_mgt_sn"
    case SidoCd => "bjd_cd"
    case SigCd => "bjd_cd"
    case BjdCd => "bjd_cd"
    case SiNm => "si_nm"
    case SggNm => "sgg_nm"
    case RnNrm => "rn_nrm"
    case BuldNmNrm => "buld_nm_nrm"
    case SigunguBuldNmNrm => "sigungu_buld_nm_nrm"
    case BuldMnnm => "buld_mnnm"
    case BuldSlno => "buld_slno"
    case BuldSeCd => "buld_se_cd"
    case PtSource => "pt_source"
  }

  function Cell(column: Column, row: Row): Value {
    match column
    case SidoCd => Truncated(row, SourceOf(column), 2)
    case SigCd => Truncated(row, SourceOf(column), 5)
    case _ => Plain(row, SourceOf(column))
  }

  /** District codes are the first two and five characters of the area code, or all of it when it is shorter; NULL stays
      NULL. */
  lemma DistrictCodes(row: Row, areaCode: Option<string>)
    requires areaCode == TextOf(row, "bjd_cd")
    ensures areaCode.None? ==> Cell(SidoCd, row) == Cell(SigCd, row) == Null
    ensures areaCode.Some? ==>
      && Cell(SidoCd, row) == Text(if |areaCode.value| <= 2 then areaCode.value else areaCode.value[..2])
      && Cell(SigCd, row) == Text(if |areaCode.value| <= 5 then areaCode.value else areaCode.value[..5])
  {
  }

  /** Every other column is taken over under its name. */
  lemma PlainCells(row: Row)
    ensures Cell(BdMgtSn, row) == Plain(row, "bd_mgt_sn") && Cell(BjdCd, row) == Plain(row, "bjd_cd")
    ensures Cell(SiNm, row) == Plain(row, "si_nm") && Cell(SggNm, row) == Plain(row, "sgg_nm")
    ensures Cell(RnNrm, row) == Plain(row, "rn_nrm") && Cell(BuldNmNrm, row) == Plain(row, "buld_nm_nrm")
    ensures Cell(SigunguBuldNmNrm, row) == Plain(row, "sigungu_buld_nm_nrm")
    ensures Cell(BuldMnnm, row) == Plain(row, "buld_mnnm") && Cell(BuldSlno, row) == Plain(row, "buld_slno")
    ensures Cell(BuldSeCd, row) == Plain(row, "buld_se_cd") && Cell(PtSource, row) == Plain(row, "pt_source")
  {
  }

  function Project(columns: seq<Column>, row: Row): SearchRow { map column | column in columns :: Cell(column, row) }

  predicate Searchable(row: Row) { TextOf(row, "rn_nrm").Some? && TextOf(row, "rn_nrm").value != "" }

  function SearchRows(columns: seq<Column>, rows: seq<Row>): seq<SearchRow> {
    if rows == [] then []
    else (if Searchable(rows[0]) then [Project(columns, rows[0])] else []) + SearchRows(columns, rows[1..])
  }

  /** What the public view holds when it was just refreshed from the public table. */
  function PublicSearch(mv: seq<Row>): SearchTable { SearchTable(PUBLIC_COLUMNS, SearchRows(PUBLIC_COLUMNS, mv)) }

  function ShadowSearch(shadow: seq<Row>): SearchTable {
    SearchTable(SHADOW_COLUMNS, SearchRows(SHADOW_COLUMNS, shadow))
  }

  lemma {:induction false} SearchRowsAreCounted(columns: seq<Column>, rows: seq<Row>)
    ensures |SearchRows(columns, rows)| == Count((row: Row) => Searchable(row), rows)
  {
    if rows != [] {
      SearchRowsAreCounted(columns, rows[1..]);
    }
  }

  /** No column of another length than the names of the two points changes. */
  lemma SameColumn(shadow: Row, mv: Row, policy: seq<string>, best: seq<BestRow>, transform: Geometry -> Geometry,
                   column: string)
    requires Shadows(shadow, mv, policy, best, transform) && |column| != 7
    ensures column in shadow <==> column in mv
    ensures column in mv ==> shadow[column] == mv[column]
  {
    assert |"pt_5179"| == 7 && |"pt_4326"| == 7;
    ShadowKeepsTheRest(shadow, mv, policy, best, transform);
  }

  lemma SameCells(shadow: Row, mv: Row, policy: seq<string>, best: seq<BestRow>, transform: Geometry -> Geometry)
    requires Shadows(shadow, mv, policy, best, transform)
    ensures Searchable(shadow) == Searchable(mv)
    ensures forall column :: Cell(column, shadow) == Cell(column, mv)
  {
    SameColumn(shadow, mv, policy, best, transform, SourceOf(RnNrm));
    forall column ensures Cell(column, shadow) == Cell(column, mv) {
      SameColumn(shadow, mv, policy, best, transform, SourceOf(column));
    }
  }

  const NEW_COLUMNS: set<Column> := {BuldSlno, BuldSeCd}

  lemma OlderProjection(row: Row)
    ensures Project(SHADOW_COLUMNS, row) == Project(PUBLIC_COLUMNS, row) - NEW_COLUMNS
    ensures Project(SHADOW_COLUMNS, row) != Project(PUBLIC_COLUMNS, row)
  {
    assert BuldSlno in Project(PUBLIC_COLUMNS, row) && BuldSlno !in Project(SHADOW_COLUMNS, row);
  }

  /** Without the two columns of migration 0020. */
  ghost predicate LacksNewColumns(shadow: seq<SearchRow>, public: seq<SearchRow>) {
    |shadow| == |public| && forall i :: 0 <= i < |public| ==> shadow[i] == public[i] - NEW_COLUMNS
  }

  /** The text-search table of the shadow is the fresh public one without two columns, row for row and in the same
      order. */
  lemma {:induction false} ShadowSearchLacksColumns(shadow: seq<Row>, mv: seq<Row>, policy: seq<string>,
                                                    best: seq<BestRow>, transform: Geometry -> Geometry)
    requires AllShadow(shadow, mv, policy, best, transform)
    ensures LacksNewColumns(SearchRows(SHADOW_COLUMNS, shadow), SearchRows(PUBLIC_COLUMNS, mv))
  {
    if mv != [] {
      SameCells(shadow[0], mv[0], policy, best, transform);
      OlderProjection(mv[0]);
      assert Project(SHADOW_COLUMNS, shadow[0]) == Project(SHADOW_COLUMNS, mv[0]);
      ShadowSearchLacksColumns(shadow[1..], mv[1..], policy, best, transform);
    }
  }

  /** So the rows of the two tables are the same exactly when there are none: no public row is searchable. */
  lemma SameSearchRowsIff(shadow: seq<Row>, mv: seq<Row>, policy: seq<string>, best: seq<BestRow>,
                          transform: Geometry -> Geometry)
    requires AllShadow(shadow, mv, policy, best, transform)
    ensures SearchRows(SHADOW_COLUMNS, shadow) == SearchRows(PUBLIC_COLUMNS, mv)
      <==> forall row :: row in mv ==> TextOf(row, "rn_nrm") == None || TextOf(row, "rn_nrm") == Some("")
  {
    var old_, fresh_ := SearchRows(SHADOW_COLUMNS, shadow), SearchRows(PUBLIC_COLUMNS, mv);
    ShadowSearchLacksColumns(shadow, mv, policy, best, transform);
    SearchRowsAreCounted(PUBLIC_COLUMNS, mv);
    CountZero((row: Row) => Searchable(row), mv);
    if fresh_ != [] {
      SearchRowHasAll(PUBLIC_COLUMNS, mv, 0);
      assert BuldSlno in fresh_[0] && BuldSlno !in old_[0];
    }
  }

  lemma {:induction false} SearchRowHasAll(columns: seq<Column>, rows: seq<Row>, i: nat)
    requires i < |SearchRows(columns, rows)|
    ensures forall column :: column in columns <==> column in SearchRows(columns, rows)[i]
  {
    if Searchable(rows[0]) {
      if i > 0 {
        SearchRowHasAll(columns, rows[1..], i - 1);
      }
    } else {
      SearchRowHasAll(columns, rows[1..], i);
    }
  }

  // ---- queries on them ----

  /** The part of a query that reads a text-search table: which columns it names, and what it answers on their
      values. */
  datatype Query<!A> = Query(named: set<Column>, answer: seq<SearchRow> -> A)

  function Restricted(rows: seq<SearchRow>, named: set<Column>): seq<SearchRow> {
    seq(|rows|, i requires 0 <= i < |rows| => map column | column in rows[i] && column in named :: rows[i][column])
  }

  /** `None` is the error of the database about a column that the table does not have. */
  function Ask<A>(query: Query<A>, table: SearchTable): Option<A> {
    if forall column :: column in query.named ==> column in table.columns
    then Some(query.answer(Restricted(table.rows, query.named))) else None
  }

  /** A query gets the same answer from the shadow as from the fresh public view exactly when it names none of the two
      columns; every query works on the public view, and one that names them fails on the shadow. */
  lemma ServedAlikeIff<A>(query: Query<A>, shadow: seq<Row>, mv: seq<Row>, policy: seq<string>, best: seq<BestRow>,
                          transform: Geometry -> Geometry)
    requires AllShadow(shadow, mv, policy, best, transform)
    ensures Ask(query, PublicSearch(mv)).Some?
    ensures Ask(query, ShadowSearch(shadow)) == Ask(query, PublicSearch(mv)) <==> query.named !! NEW_COLUMNS
    ensures Ask(query, ShadowSearch(shadow)).Some?
      <==> forall column :: column in query.named ==> column in SHADOW_COLUMNS
  {
    AllColumns();
    ShadowSearchLacksColumns(shadow, mv, policy, best, transform);
    if query.named !! NEW_COLUMNS {
      RestrictedAlike(SearchRows(SHADOW_COLUMNS, shadow), SearchRows(PUBLIC_COLUMNS, mv), query.named);
    }
  }

  lemma AllColumns()
    ensures forall column :: column in PUBLIC_COLUMNS
    ensures forall column :: column in SHADOW_COLUMNS <==> column !in NEW_COLUMNS
  {
    forall column ensures column in PUBLIC_COLUMNS && (column in SHADOW_COLUMNS <==> column !in NEW_COLUMNS) {
      WhereColumnsAre(column);
    }
  }

  lemma WhereColumnsAre(column: Column)
    ensures column in PUBLIC_COLUMNS && (column in SHADOW_COLUMNS <==> column !in NEW_COLUMNS)
  {
    match column {
      case BdMgtSn => assert PUBLIC_COLUMNS[0] == SHADOW_COLUMNS[0] == column;
      case SidoCd => assert PUBLIC_COLUMNS[1] == SHADOW_COLUMNS[1] == column;
      case SigCd => assert PUBLIC_COLUMNS[2] == SHADOW_COLUMNS[2] == column;
      case BjdCd => assert PUBLIC_COLUMNS[3] == SHADOW_COLUMNS[3] == column;
      case SiNm => assert PUBLIC_COLUMNS[4] == SHADOW_COLUMNS[4] == column;
      case SggNm => assert PUBLIC_COLUMNS[5] == SHADOW_COLUMNS[5] == column;
      case RnNrm => assert PUBLIC_COLUMNS[6] == SHADOW_COLUMNS[6] == column;
      case BuldNmNrm => assert PUBLIC_COLUMNS[7] == SHADOW_COLUMNS[7] == column;
      case SigunguBuldNmNrm => assert PUBLIC_COLUMNS[8] == SHADOW_COLUMNS[8] == column;
      case BuldMnnm => assert PUBLIC_COLUMNS[9] == SHADOW_COLUMNS[9] == column;
      case BuldSlno => assert PUBLIC_COLUMNS[10] == column;
      case BuldSeCd => assert PUBLIC_COLUMNS[11] == column;
      case PtSource => assert PUBLIC_COLUMNS[12] == SHADOW_COLUMNS[10] == column;
    }
  }

  lemma RestrictedAlike(shadow: seq<SearchRow>, public: seq<SearchRow>, named: set<Column>)
    requires LacksNewColumns(shadow, public) && named !! NEW_COLUMNS
    ensures Restricted(shadow, named) == Restricted(public, named)
  {
    forall i | 0 <= i < |public| ensures Restricted(shadow, named)[i] == Restricted(public, named)[i] {
      assert shadow[i] == public[i] - NEW_COLUMNS;
    }
  }

  /** The columns that the fuzzy road lookup names, and those of the free-text search. */
  const FUZZY_READS: set<Column> :=
    {BdMgtSn, RnNrm, SiNm, SggNm, SigCd, SidoCd, BjdCd, BuldMnnm, BuldSlno, BuldSeCd, PtSource}

  const TEXT_READS: set<Column> := {BdMgtSn, RnNrm, BuldNmNrm, SigunguBuldNmNrm, SigCd, SidoCd, BjdCd}

  function FuzzyQuery<A>(answer: seq<SearchRow> -> A): Query<A> { Query(FUZZY_READS, answer) }

  function TextQuery<A>(answer: seq<SearchRow> -> A): Query<A> { Query(TEXT_READS, answer) }

  /** The fuzzy road lookup, which the public view serves, fails on the shadow; the free-text search finds the same
      there. */
  lemma FuzzyLookupFailsOnTheShadow<A>(answer: seq<SearchRow> -> A, shadow: seq<Row>, mv: seq<Row>, policy: seq<string>,
                                       best: seq<BestRow>, transform: Geometry -> Geometry)
    requires AllShadow(shadow, mv, policy, best, transform)
    ensures Ask(FuzzyQuery(answer), PublicSearch(mv)).Some?
    ensures Ask(FuzzyQuery(answer), ShadowSearch(shadow)).None?
    ensures Ask(TextQuery(answer), ShadowSearch(shadow)) == Ask(TextQuery(answer), PublicSearch(mv))
  {
    AllColumns();
    ServedAlikeIff(FuzzyQuery(answer), shadow, mv, policy, best, transform);
    ServedAlikeIff(TextQuery(answer), shadow, mv, policy, best, transform);
    assert BuldSlno in FUZZY_READS && BuldSlno in NEW_COLUMNS;
  }

  /** In either point column, and in any other, as many rows as before have a point, or more. */
  lemma {:induction false} PointsSurvive(shadow: seq<Row>, mv: seq<Row>, policy: seq<string>, best: seq<BestRow>,
                                         transform: Geometry -> Geometry, column: string)
    requires AllShadow(shadow, mv, policy, best, transform)
    ensures Points(mv, column) <= Points(shadow, column)
  {
    if mv != [] {
      ShadowKeepsTheRest(shadow[0], mv[0], policy, best, transform);
      PointsSurvive(shadow[1..], mv[1..], policy, best, transform, column);
    }
  }

  // ---- the whole pipeline ----

  lemma {:induction false} PolicyBdsAre(config: Config, features: seq<Feature>, bd: string)
    ensures bd in PolicyBds(config, features) <==> exists f :: f in features && f.bdMgtSn == bd && Selected(config, f)
  {
    if features != [] {
      assert features == [features[0]] + features[1..];
      PredicateSelects(config, features[0]);
      PolicyBdsAre(config, features[1..], bd);
    }
  }

  lemma {:induction false} PolicyBdsDistinct(config: Config, features: seq<Feature>)
    requires forall i, j :: 0 <= i < j < |features| ==> features[i].bdMgtSn != features[j].bdMgtSn
    ensures Distinct(PolicyBds(config, features))
  {
    if features != [] {
      PolicyBdsDistinct(config, features[1..]);
      var rest := PolicyBds(config, features[1..]);
      PolicyBdsAre(config, features[1..], features[0].bdMgtSn);
      assert features[0].bdMgtSn !in rest;
    }
  }

  /** The inputs of the pipeline. */
  datatype Staging = Staging(entrances: seq<EntranceRow>, addresses: seq<AddressRow>, texts: seq<TextRow>, mv: seq<Row>,
                             locsum: seq<EntrcRow>, roadaddr: seq<EntrcRow>)

  function Best(st: Staging): seq<BestRow> { BestTable(RawTable(st.entrances, st.addresses)) }

  function BaseOf(st: Staging): seq<Base> {
    BaseTable(Best(st), st.texts, st.mv, ServingEntrc(EntrcUnion(st.locsum, st.roadaddr, st.texts)))
  }

  function Features(st: Staging, sp: Spatial, month: string): seq<Feature> { FeatureTable(BaseOf(st), sp, month) }

  /** At most one feature row per building, each about a building with a best candidate, with the columns the gate
      relies on. */
  lemma FeaturesArePerBuilding(st: Staging, sp: Spatial, month: string)
    requires UniqueText(st.texts) && UniqueServing(st.mv)
    ensures var fs := Features(st, sp, month);
      && (forall i, j :: 0 <= i < j < |fs| ==> fs[i].bdMgtSn != fs[j].bdMgtSn)
      && AllDerived(fs)
      && (forall f :: f in fs ==> exists c :: c in Best(st) && c.raw.bdMgtSn == f.bdMgtSn)
      && DistinctBest(Best(st))
  {
    var best, union := Best(st), EntrcUnion(st.locsum, st.roadaddr, st.texts);
    BestIsDistinct(RawTable(st.entrances, st.addresses));
    BaseIsOnePerBuilding(best, st.texts, st.mv, union);
    var base, fs := BaseOf(st), Features(st, sp, month);
    forall f | f in fs ensures exists c :: c in best && c.raw.bdMgtSn == f.bdMgtSn {
      var i :| 0 <= i < |fs| && fs[i] == f;
      BaseRowsAreJoined(best, st.texts, st.mv, union, base[i]);
      assert base[i].best in best && base[i].best.raw.bdMgtSn == f.bdMgtSn;
    }
  }

  /** From any staging tables, given only that the text table and the public table have one row per building: the shadow
      table is the public table with the points of exactly the selected buildings replaced, its text-search table is the
      fresh public view without two columns, and no point is lost. */
  lemma ShadowOfThePipeline(st: Staging, sp: Spatial, month: string, config: Config, columns: seq<string>,
                            transform: Geometry -> Geometry)
    requires UniqueText(st.texts) && UniqueServing(st.mv)
    requires "pt_5179" in columns && "pt_4326" in columns
    requires forall i :: 0 <= i < |st.mv| ==> RowOf(columns, st.mv[i])
    ensures var policy := PolicyBds(config, Features(st, sp, month));
      var shadow := ShadowTable(columns, st.mv, policy, Best(st), transform);
      && AllShadow(shadow, st.mv, policy, Best(st), transform)
      && LacksNewColumns(ShadowSearch(shadow).rows, PublicSearch(st.mv).rows)
      && (forall column :: Points(st.mv, column) <= Points(shadow, column))
  {
    var fs := Features(st, sp, month);
    var policy := PolicyBds(config, fs);
    FeaturesArePerBuilding(st, sp, month);
    PolicyBdsDistinct(config, fs);
    forall p | p in policy ensures exists c :: c in Best(st) && c.raw.bdMgtSn == p {
      PolicyBdsAre(config, fs, p);
    }
    ShadowIsBijective(columns, st.mv, policy, Best(st), transform);
    var shadow := ShadowTable(columns, st.mv, policy, Best(st), transform);
    ShadowSearchLacksColumns(shadow, st.mv, policy, Best(st), transform);
    forall column ensures Points(st.mv, column) <= Points(shadow, column) {
      PointsSurvive(shadow, st.mv, policy, Best(st), transform, column);
    }
  }
}
