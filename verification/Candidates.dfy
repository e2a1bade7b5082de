/**
 * The C11 candidate tables and the feature table: joins that must neither multiply nor lose buildings.
 *
 * Geometry operations and the polygon tables they read are a parameter; each of their results may be NULL.
 */
module Candidates {
  import opened Sequences
  import opened Sql

  /** Building attributes that are only carried along. */
  datatype Attributes = Attributes(rnCd: Option<string>, buldSeCd: Option<string>, buldMnnm: Option<int>,
                                   buldSlno: Option<int>)

  datatype EntranceRow = EntranceRow(sigCd: Option<int>, bulManNo: Option<int>, entManNo: Option<int>,
                                     eqbManSn: Option<int>, entrcSe: Option<string>, geom: Option<Geometry>)

  datatype AddressRow = AddressRow(adrMngNo: Option<string>, sigCd: Option<int>, bulManNo: Option<int>,
                                   eqbManSn: Option<int>, attributes: Attributes)

  datatype RawRow = RawRow(bdMgtSn: string, sigCd: int, bulManNo: int, entManNo: Option<int>, eqbManSn: int,
                           entrcSe: Option<string>, attributes: Attributes, point: Geometry)

  datatype BestRow = BestRow(raw: RawRow, candidatesPerBd: nat)

  // ---- raw candidates ----

  predicate JoinsRaw(e: EntranceRow, a: AddressRow) {
    && Equal(a.sigCd, e.sigCd) == True && Equal(a.bulManNo, e.bulManNo) == True && Equal(a.eqbManSn, e.eqbManSn) == True
    && a.adrMngNo.Some? && a.adrMngNo.value != "" && e.geom.Some?
  }

  function RawOf(e: EntranceRow, a: AddressRow): RawRow
    requires JoinsRaw(e, a)
  {
    RawRow(a.adrMngNo.value, e.sigCd.value, e.bulManNo.value, e.entManNo,
           e.eqbManSn.value, e.entrcSe, a.attributes, e.geom.value)
  }

  function RawForEntrance(e: EntranceRow, addresses: seq<AddressRow>): (r: seq<RawRow>)
    ensures forall x :: x in r ==> exists a :: a in addresses && JoinsRaw(e, a) && x == RawOf(e, a)
  {
    if addresses == [] then []
    else
      var rest := RawForEntrance(e, addresses[1..]);
      assert addresses == [addresses[0]] + addresses[1..];
      if JoinsRaw(e, addresses[0]) then [RawOf(e, addresses[0])] + rest else rest
  }

  function RawTable(entrances: seq<EntranceRow>, addresses: seq<AddressRow>): seq<RawRow> {
    if entrances == [] then []
    else RawForEntrance(entrances[0], addresses) + RawTable(entrances[1..], addresses)
  }

  // ---- the best candidate of each building ----

  function Bd(r: RawRow): string { r.bdMgtSn }

  function Representative(r: RawRow): int { if r.entrcSe == Some("0") then 0 else 1 }

  /** `ORDER BY representative, ent_man_no NULLS LAST, sig_cd, bul_man_no, eqb_man_sn`. */
  predicate Preferred(a: RawRow, b: RawRow) {
    if Representative(a) != Representative(b) then Representative(a) < Representative(b)
    else if a.entManNo != b.entManNo then
      b.entManNo.None? || (a.entManNo.Some? && a.entManNo.value < b.entManNo.value)
    else if a.sigCd != b.sigCd then a.sigCd < b.sigCd
    else if a.bulManNo != b.bulManNo then a.bulManNo < b.bulManNo
    else a.eqbManSn <= b.eqbManSn
  }

  const PREFERRED: (RawRow, RawRow) -> bool := (a, b) => Preferred(a, b)

  const BD: RawRow -> string := r => Bd(r)

  lemma PreferredIsTotal()
    ensures TotalPreorder(PREFERRED)
  {
  }

  function BestTable(raw: seq<RawRow>): seq<BestRow> {
    var places := Firsts(raw, BD, PREFERRED, |raw|);
    seq(|places|, k requires 0 <= k < |places| =>
      BestRow(raw[places[k]], Count((r: RawRow) => r.bdMgtSn == raw[places[k]].bdMgtSn, raw)))
  }

  /** Every building of the raw table has a best row. */
  lemma EveryBuildingHasABestRow(raw: seq<RawRow>, i: nat)
    requires i < |raw|
    ensures exists k :: 0 <= k < |BestTable(raw)| && BestTable(raw)[k].raw.bdMgtSn == raw[i].bdMgtSn
  {
    PreferredIsTotal();
    var k := EveryGroupHasAFirst(raw, BD, PREFERRED, i);
    assert BestTable(raw)[k].raw.bdMgtSn == raw[i].bdMgtSn;
  }

  /** No building has two best rows. */
  lemma NoBuildingHasTwoBestRows(raw: seq<RawRow>, k: nat, l: nat)
    requires k < |BestTable(raw)| && l < |BestTable(raw)|
    requires BestTable(raw)[k].raw.bdMgtSn == BestTable(raw)[l].raw.bdMgtSn
    ensures k == l
  {
    PreferredIsTotal();
    NoGroupHasTwoFirsts(raw, BD, PREFERRED, k, l);
  }

  ghost predicate DistinctBest(best: seq<BestRow>) {
    forall k, l :: 0 <= k < l < |best| ==> best[k].raw.bdMgtSn != best[l].raw.bdMgtSn
  }

  lemma BestIsDistinct(raw: seq<RawRow>)
    ensures DistinctBest(BestTable(raw))
  {
    var best := BestTable(raw);
    forall k, l | 0 <= k < l < |best| ensures best[k].raw.bdMgtSn != best[l].raw.bdMgtSn {
      if best[k].raw.bdMgtSn == best[l].raw.bdMgtSn {
        NoBuildingHasTwoBestRows(raw, k, l);
      }
    }
  }

  /** A best row is a raw row of its building that the ordering puts before all others, with the number of them. */
  lemma BestRowIsPreferred(raw: seq<RawRow>, k: nat, i: nat)
    requires k < |BestTable(raw)| && i < |raw| && raw[i].bdMgtSn == BestTable(raw)[k].raw.bdMgtSn
    ensures BestTable(raw)[k].raw in raw && Preferred(BestTable(raw)[k].raw, raw[i])
    ensures BestTable(raw)[k].candidatesPerBd == Count((r: RawRow) => r.bdMgtSn == raw[i].bdMgtSn, raw) >= 1
  {
    PreferredIsTotal();
    var place := Firsts(raw, BD, PREFERRED, |raw|)[k];
    FirstIsLeast(raw, BD, PREFERRED, place, i);
    var p := (r: RawRow) => r.bdMgtSn == raw[i].bdMgtSn;
    var q := (r: RawRow) => r.bdMgtSn == raw[place].bdMgtSn;
    CountMonotone(p, q, raw);
    CountMonotone(q, p, raw);
    CountZero(p, raw);
    assert p(raw[i]);
  }

  /** What the ordering prefers, on the fields. A representative entrance comes before any other; among entrances that
      are both representative or both not, the least number, and one without a number only where none has one; then the
      district, the building and the equipment number. */
  lemma BestRowIsChosenBy(raw: seq<RawRow>, k: nat, i: nat)
    requires k < |BestTable(raw)| && i < |raw| && raw[i].bdMgtSn == BestTable(raw)[k].raw.bdMgtSn
    ensures var b, r := BestTable(raw)[k].raw, raw[i];
      && (r.entrcSe == Some("0") ==> b.entrcSe == Some("0"))
      && ((r.entrcSe == Some("0") <==> b.entrcSe == Some("0")) ==>
            && (r.entManNo.Some? ==> b.entManNo.Some? && b.entManNo.value <= r.entManNo.value)
            && (r.entManNo == b.entManNo ==> b.sigCd <= r.sigCd)
            && (r.entManNo == b.entManNo && r.sigCd == b.sigCd ==> b.bulManNo <= r.bulManNo)
            && (r.entManNo == b.entManNo && r.sigCd == b.sigCd && r.bulManNo == b.bulManNo ==>
                  b.eqbManSn <= r.eqbManSn))
  {
    BestRowIsPreferred(raw, k, i);
  }

  /** The raw table holds exactly the pairs of an entrance with a geometry and an address with a number that agree, none
      of them missing, in district, building and equipment number; on the fields. */
  lemma RawRowsAre(entrances: seq<EntranceRow>, addresses: seq<AddressRow>, x: RawRow)
    ensures x in RawTable(entrances, addresses)
      <==> exists e, a :: e in entrances && a in addresses && PairedAs(e, a, x)
  {
    RawRowsAreJoined(entrances, addresses, x);
    forall e, a | e in entrances && a in addresses
      ensures JoinsRaw(e, a) && x == RawOf(e, a) <==> PairedAs(e, a, x)
    {
    }
  }

  ghost predicate PairedAs(e: EntranceRow, a: AddressRow, x: RawRow) {
    && e.sigCd == a.sigCd == Some(x.sigCd) && e.bulManNo == a.bulManNo == Some(x.bulManNo)
    && e.eqbManSn == a.eqbManSn == Some(x.eqbManSn)
    && a.adrMngNo == Some(x.bdMgtSn) && x.bdMgtSn != "" && e.geom == Some(x.point)
    && x.entManNo == e.entManNo && x.entrcSe == e.entrcSe && x.attributes == a.attributes
  }

  /** The raw table holds exactly the pairs that join. */
  lemma {:induction false} RawRowsAreJoined(entrances: seq<EntranceRow>, addresses: seq<AddressRow>, x: RawRow)
    ensures x in RawTable(entrances, addresses)
      <==> exists e, a :: e in entrances && a in addresses && JoinsRaw(e, a) && x == RawOf(e, a)
  {
    if entrances != [] {
      RawRowsAreJoined(entrances[1..], addresses, x);
      assert entrances == [entrances[0]] + entrances[1..];
      forall a | a in addresses && JoinsRaw(entrances[0], a)
        ensures RawOf(entrances[0], a) in RawForEntrance(entrances[0], addresses)
      {
        RawForEntranceHas(entrances[0], addresses, a);
      }
    }
  }

  lemma {:induction false} RawForEntranceHas(e: EntranceRow, addresses: seq<AddressRow>, a: AddressRow)
    requires a in addresses && JoinsRaw(e, a)
    ensures RawOf(e, a) in RawForEntrance(e, addresses)
  {
    if addresses[0] != a {
      assert addresses == [addresses[0]] + addresses[1..];
      RawForEntranceHas(e, addresses[1..], a);
    }
  }

  // ---- the feature table ----

  datatype TextRow = TextRow(bdMgtSn: Option<string>, sourceYyyymm: Option<string>, rncodeFull: Option<string>,
                             bjdCd: Option<string>, zipNo: Option<string>)

  datatype EntrcRow = EntrcRow(bdMgtSn: Option<string>, entManNo: Option<int>, geom: Option<Geometry>,
                               entSeCd: Option<string>, sourceYyyymm: Option<string>,
                               sourcePriority: int, repPriority: int)

  /** The two entrance tables under one another, as the sub-query of the serving entrance puts them. */
  function EntrcUnion(locsum: seq<EntrcRow>, roadaddr: seq<EntrcRow>, texts: seq<TextRow>): seq<EntrcRow> {
    var a := Filter((e: EntrcRow) => e.bdMgtSn.Some?, locsum);
    var months := set t | t in texts :: t.sourceYyyymm;
    var b := Filter((e: EntrcRow) => e.sourceYyyymm.Some? && e.sourceYyyymm in months, roadaddr);
    seq(|a|, i requires 0 <= i < |a| =>
      a[i].(sourcePriority := 0, repPriority := if a[i].entSeCd == Some("0") then 0 else 1))
    + seq(|b|, i requires 0 <= i < |b| => b[i].(sourcePriority := 1, repPriority := 0))
  }

  predicate EntrcPreferred(a: EntrcRow, b: EntrcRow) {
    if a.sourcePriority != b.sourcePriority then a.sourcePriority < b.sourcePriority
    else if a.repPriority != b.repPriority then a.repPriority < b.repPriority
    else b.entManNo.None? || (a.entManNo.Some? && a.entManNo.value <= b.entManNo.value)
  }

  const ENTRC_PREFERRED: (EntrcRow, EntrcRow) -> bool := (a, b) => EntrcPreferred(a, b)

  const ENTRC_BD: EntrcRow -> Option<string> := (e: EntrcRow) => e.bdMgtSn

  lemma EntrcPreferredIsTotal()
    ensures TotalPreorder(ENTRC_PREFERRED)
  {
  }

  /** `SELECT DISTINCT ON (bd_mgt_sn)`. */
  function ServingEntrc(union: seq<EntrcRow>): seq<EntrcRow> {
    var places := Firsts(union, ENTRC_BD, ENTRC_PREFERRED, |union|);
    seq(|places|, k requires 0 <= k < |places| => union[places[k]])
  }

  /** A row of the location summary that has a building. */
  ghost predicate FromSummary(locsum: seq<EntrcRow>, x: EntrcRow, l: EntrcRow) {
    && l in locsum && l.bdMgtSn.Some?
    && x == l.(sourcePriority := 0, repPriority := if l.entSeCd == Some("0") then 0 else 1)
  }

  /** A road-address entrance of a month that the text table knows. */
  ghost predicate FromRoadAddresses(roadaddr: seq<EntrcRow>, texts: seq<TextRow>, x: EntrcRow, r: EntrcRow) {
    && r in roadaddr && r.sourceYyyymm.Some? && (exists t :: t in texts && t.sourceYyyymm == r.sourceYyyymm)
    && x == r.(sourcePriority := 1, repPriority := 0)
  }

  lemma UnionHas(locsum: seq<EntrcRow>, roadaddr: seq<EntrcRow>, texts: seq<TextRow>, x: EntrcRow, y: EntrcRow)
    requires FromSummary(locsum, x, y) || FromRoadAddresses(roadaddr, texts, x, y)
    ensures x in EntrcUnion(locsum, roadaddr, texts)
  {
    var months := set t | t in texts :: t.sourceYyyymm;
    var a := Filter((e: EntrcRow) => e.bdMgtSn.Some?, locsum);
    var b := Filter((e: EntrcRow) => e.sourceYyyymm.Some? && e.sourceYyyymm in months, roadaddr);
    if FromSummary(locsum, x, y) {
      var i :| 0 <= i < |a| && a[i] == y;
      assert EntrcUnion(locsum, roadaddr, texts)[i] == x;
    } else {
      assert y in b;
      var i :| 0 <= i < |b| && b[i] == y;
      assert EntrcUnion(locsum, roadaddr, texts)[|a| + i] == x;
    }
  }

  lemma UnionHasOnly(locsum: seq<EntrcRow>, roadaddr: seq<EntrcRow>, texts: seq<TextRow>, x: EntrcRow)
    returns (y: EntrcRow)
    requires x in EntrcUnion(locsum, roadaddr, texts)
    ensures FromSummary(locsum, x, y) || FromRoadAddresses(roadaddr, texts, x, y)
  {
    var months := set t | t in texts :: t.sourceYyyymm;
    var a := Filter((e: EntrcRow) => e.bdMgtSn.Some?, locsum);
    var b := Filter((e: EntrcRow) => e.sourceYyyymm.Some? && e.sourceYyyymm in months, roadaddr);
    var union := EntrcUnion(locsum, roadaddr, texts);
    var i :| 0 <= i < |union| && union[i] == x;
    if i < |a| {
      y := a[i];
      assert y in a;
    } else {
      y := b[i - |a|];
      assert y in b;
    }
  }

  /** The union holds exactly these two kinds of rows. */
  lemma UnionRows(locsum: seq<EntrcRow>, roadaddr: seq<EntrcRow>, texts: seq<TextRow>, x: EntrcRow)
    ensures x in EntrcUnion(locsum, roadaddr, texts)
      <==> exists y :: FromSummary(locsum, x, y) || FromRoadAddresses(roadaddr, texts, x, y)
  {
    if x in EntrcUnion(locsum, roadaddr, texts) {
      var y := UnionHasOnly(locsum, roadaddr, texts, x);
    }
    if y :| FromSummary(locsum, x, y) || FromRoadAddresses(roadaddr, texts, x, y) {
      UnionHas(locsum, roadaddr, texts, x, y);
    }
  }

  /** Every building with an entrance in the union has a serving entrance. */
  lemma EveryBuildingHasAnEntrance(union: seq<EntrcRow>, x: EntrcRow)
    requires x in union
    ensures exists e :: e in ServingEntrc(union) && e.bdMgtSn == x.bdMgtSn
  {
    EntrcPreferredIsTotal();
    var i :| 0 <= i < |union| && union[i] == x;
    var k := EveryGroupHasAFirst(union, ENTRC_BD, ENTRC_PREFERRED, i);
    assert ServingEntrc(union)[k] in ServingEntrc(union);
  }

  /** Which one it is, on the fields: of the location summary before the road-address entrances; within the summary a
      representative one before any other; then the least number, and one without a number only where none has one. */
  lemma ServingEntranceIsChosenBy(union: seq<EntrcRow>, e: EntrcRow, x: EntrcRow)
    requires e in ServingEntrc(union) && x in union && x.bdMgtSn == e.bdMgtSn
    ensures e in union && e.sourcePriority <= x.sourcePriority
    ensures x.sourcePriority == e.sourcePriority ==> e.repPriority <= x.repPriority
    ensures x.sourcePriority == e.sourcePriority && x.repPriority == e.repPriority && x.entManNo.Some? ==>
      e.entManNo.Some? && e.entManNo.value <= x.entManNo.value
  {
    EntrcPreferredIsTotal();
    var es := ServingEntrc(union);
    var k :| 0 <= k < |es| && es[k] == e;
    var i :| 0 <= i < |union| && union[i] == x;
    FirstIsLeast(union, ENTRC_BD, ENTRC_PREFERRED, Firsts(union, ENTRC_BD, ENTRC_PREFERRED, |union|)[k], i);
  }

  /** A row of the `base` query: the best candidate, its text row, its serving row and the serving entrance if any. */
  datatype Base = Base(best: BestRow, text: TextRow, serving: Row, entrance: Option<EntrcRow>)

  function WithEntrance(c: BestRow, t: TextRow, m: Row, es: seq<EntrcRow>): seq<Base> {
    if es == [] then [Base(c, t, m, None)] else seq(|es|, i requires 0 <= i < |es| => Base(c, t, m, Some(es[i])))
  }

  function WithServing(c: BestRow, t: TextRow, ms: seq<Row>, es: seq<EntrcRow>): seq<Base> {
    if ms == [] then [] else WithEntrance(c, t, ms[0], es) + WithServing(c, t, ms[1..], es)
  }

  function WithText(c: BestRow, ts: seq<TextRow>, ms: seq<Row>, es: seq<EntrcRow>): seq<Base> {
    if ts == [] then [] else WithServing(c, ts[0], ms, es) + WithText(c, ts[1..], ms, es)
  }

  function TextMatches(bd: string, texts: seq<TextRow>): seq<TextRow> {
    Matches(texts, (t: TextRow) => t.bdMgtSn == Some(bd))
  }

  function ServingMatches(bd: string, mv: seq<Row>): seq<Row> { Matches(mv, (m: Row) => BdOf(m) == Some(bd)) }

  function EntrcMatches(bd: string, es: seq<EntrcRow>): seq<EntrcRow> {
    Matches(es, (e: EntrcRow) => e.bdMgtSn == Some(bd))
  }

  function BaseFor(c: BestRow, texts: seq<TextRow>, mv: seq<Row>, es: seq<EntrcRow>): seq<Base> {
    var bd := c.raw.bdMgtSn;
    WithText(c, TextMatches(bd, texts), ServingMatches(bd, mv), EntrcMatches(bd, es))
  }

  function BaseTable(best: seq<BestRow>, texts: seq<TextRow>, mv: seq<Row>, es: seq<EntrcRow>): seq<Base> {
    if best == [] then [] else BaseFor(best[0], texts, mv, es) + BaseTable(best[1..], texts, mv, es)
  }

  ghost predicate UniqueText(texts: seq<TextRow>) {
    forall i, j :: 0 <= i < j < |texts| ==> texts[i].bdMgtSn.None? || texts[i].bdMgtSn != texts[j].bdMgtSn
  }

  ghost predicate UniqueServing(mv: seq<Row>) {
    forall i, j :: 0 <= i < j < |mv| ==> BdOf(mv[i]).None? || BdOf(mv[i]) != BdOf(mv[j])
  }

  lemma AtMostOneEntrance(union: seq<EntrcRow>, bd: string)
    ensures AtMostOne(ServingEntrc(union), (e: EntrcRow) => e.bdMgtSn == Some(bd))
  {
    EntrcPreferredIsTotal();
    var es := ServingEntrc(union);
    forall i, j | 0 <= i < j < |es| ensures !(es[i].bdMgtSn == Some(bd) && es[j].bdMgtSn == Some(bd)) {
      if es[i].bdMgtSn == Some(bd) && es[j].bdMgtSn == Some(bd) {
        NoGroupHasTwoFirsts(union, ENTRC_BD, ENTRC_PREFERRED, i, j);
      }
    }
  }

  /** The joins give a best candidate one base row if its building has a text row and a serving row, and none
      otherwise. */
  lemma JoinsDoNotMultiply(c: BestRow, texts: seq<TextRow>, mv: seq<Row>, union: seq<EntrcRow>)
    requires UniqueText(texts) && UniqueServing(mv)
    ensures var rows, bd := BaseFor(c, texts, mv, ServingEntrc(union)), c.raw.bdMgtSn;
      && |rows| == (if TextMatches(bd, texts) != [] && ServingMatches(bd, mv) != [] then 1 else 0)
      && (forall b :: b in rows ==> b.best == c && b.serving in mv && BdOf(b.serving) == Some(bd))
  {
    var bd, es := c.raw.bdMgtSn, ServingEntrc(union);
    OneMatch(texts, (t: TextRow) => t.bdMgtSn == Some(bd));
    OneMatch(mv, (m: Row) => BdOf(m) == Some(bd));
    AtMostOneEntrance(union, bd);
    OneMatch(es, (e: EntrcRow) => e.bdMgtSn == Some(bd));
    var ts, ms := TextMatches(bd, texts), ServingMatches(bd, mv);
    if ts != [] && ms != [] {
      var one := WithEntrance(c, ts[0], ms[0], EntrcMatches(bd, es));
      assert |one| == 1;
      assert WithServing(c, ts[0], ms, EntrcMatches(bd, es)) == one + [];
      assert WithText(c, ts, ms, EntrcMatches(bd, es)) == one + [];
    } else if ts != [] {
      assert WithServing(c, ts[0], ms, EntrcMatches(bd, es)) == [];
      assert WithText(c, ts, ms, EntrcMatches(bd, es)) == [] + [];
    }
  }

  function BaseBd(b: Base): string { b.best.raw.bdMgtSn }

  lemma {:induction false} BaseRowsAreJoined(best: seq<BestRow>, texts: seq<TextRow>, mv: seq<Row>,
                                             union: seq<EntrcRow>, b: Base)
    requires UniqueText(texts) && UniqueServing(mv)
    ensures b in BaseTable(best, texts, mv, ServingEntrc(union))
      <==> b.best in best && b in BaseFor(b.best, texts, mv, ServingEntrc(union))
  {
    if best != [] {
      assert best == [best[0]] + best[1..];
      JoinsDoNotMultiply(best[0], texts, mv, union);
      BaseRowsAreJoined(best[1..], texts, mv, union, b);
    }
  }

  /** A building with a best candidate has a base row exactly when it has a text row and a serving row. */
  lemma BaseRowExistsIff(best: seq<BestRow>, texts: seq<TextRow>, mv: seq<Row>, union: seq<EntrcRow>, c: BestRow)
    requires UniqueText(texts) && UniqueServing(mv) && c in best
    ensures (exists b :: b in BaseTable(best, texts, mv, ServingEntrc(union)) && b.best == c)
      <==> TextMatches(c.raw.bdMgtSn, texts) != [] && ServingMatches(c.raw.bdMgtSn, mv) != []
  {
    var rows, base := BaseFor(c, texts, mv, ServingEntrc(union)), BaseTable(best, texts, mv, ServingEntrc(union));
    JoinsDoNotMultiply(c, texts, mv, union);
    if rows != [] {
      assert rows[0] in rows && rows[0].best == c;
      BaseRowsAreJoined(best, texts, mv, union, rows[0]);
    }
    if b :| b in base && b.best == c {
      BaseRowsAreJoined(best, texts, mv, union, b);
    }
  }

  ghost predicate OnePerBuilding(base: seq<Base>) {
    forall i, j :: 0 <= i < j < |base| ==> BaseBd(base[i]) != BaseBd(base[j])
  }

  lemma OnePerBuildingAppend(a: seq<Base>, b: seq<Base>)
    requires |a| <= 1 && OnePerBuilding(b)
    requires forall x, y :: x in a && y in b ==> BaseBd(x) != BaseBd(y)
    ensures OnePerBuilding(a + b)
  {
    forall i, j | 0 <= i < j < |a + b| ensures BaseBd((a + b)[i]) != BaseBd((a + b)[j]) {
      if i < |a| {
        assert a[i] in a && b[j - |a|] in b;
      }
    }
  }

  /** No building has two base rows, so none has two feature rows. */
  lemma {:induction false} BaseIsOnePerBuilding(best: seq<BestRow>, texts: seq<TextRow>, mv: seq<Row>,
                                                union: seq<EntrcRow>)
    requires DistinctBest(best) && UniqueText(texts) && UniqueServing(mv)
    ensures OnePerBuilding(BaseTable(best, texts, mv, ServingEntrc(union)))
  {
    if best != [] {
      var first := BaseFor(best[0], texts, mv, ServingEntrc(union));
      var rest := BaseTable(best[1..], texts, mv, ServingEntrc(union));
      JoinsDoNotMultiply(best[0], texts, mv, union);
      BaseIsOnePerBuilding(best[1..], texts, mv, union);
      forall x, y | x in first && y in rest ensures BaseBd(x) != BaseBd(y) {
        BaseRowsAreJoined(best[1..], texts, mv, union, y);
        var k :| 0 <= k < |best[1..]| && best[1..][k] == y.best;
        assert best[k + 1] == y.best;
      }
      OnePerBuildingAppend(first, rest);
    }
  }
}
