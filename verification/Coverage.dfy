/**
 * The coverage report of the candidate tables: its counts must account for every serving row and every candidate.
 */
module Coverage {
  import opened Sequences
  import opened Sql
  import opened Candidates

  predicate SameBuilding(m: Row, c: BestRow) { BdOf(m) == Some(c.raw.bdMgtSn) }

  /** How many candidates join a serving row, and how many serving rows join a candidate. */
  function Partners(m: Row, best: seq<BestRow>): nat { Count((c: BestRow) => SameBuilding(m, c), best) }

  function ServingPartners(c: BestRow, mv: seq<Row>): nat { Count((m: Row) => SameBuilding(m, c), mv) }

  /** The rows of `mv JOIN best USING (bd_mgt_sn)`. */
  function Matched(mv: seq<Row>, best: seq<BestRow>): nat {
    if mv == [] then 0 else Partners(mv[0], best) + Matched(mv[1..], best)
  }

  /** The rows that the outer joins of the report leave without a partner. */
  function CurrentOnly(mv: seq<Row>, best: seq<BestRow>): nat { Count((m: Row) => Partners(m, best) == 0, mv) }

  function CandidateOnly(best: seq<BestRow>, mv: seq<Row>): nat {
    Count((c: BestRow) => ServingPartners(c, mv) == 0, best)
  }

  function DistinctBds(raw: seq<RawRow>): set<string> { set r | r in raw :: r.bdMgtSn }

  function BestBds(best: seq<BestRow>): set<string> { set c | c in best :: c.raw.bdMgtSn }

  lemma BestBdsStep(best: seq<BestRow>)
    requires best != []
    ensures BestBds(best) == BestBds(best[1..]) + {best[0].raw.bdMgtSn}
  {
    assert best == [best[0]] + best[1..];
  }

  lemma {:induction false} DistinctBestSize(best: seq<BestRow>)
    requires DistinctBest(best)
    ensures |BestBds(best)| == |best|
  {
    if best != [] {
      var rest := best[1..];
      DistinctBestSize(rest);
      BestBdsStep(best);
      var bd := best[0].raw.bdMgtSn;
      forall k | 0 <= k < |rest| ensures rest[k].raw.bdMgtSn != bd {
        assert best[k + 1] == rest[k];
      }
    }
  }

  /** `candidate_best_rows` is `candidate_distinct_bd`. */
  lemma BestRowsAreDistinctBds(raw: seq<RawRow>)
    ensures |BestTable(raw)| == |DistinctBds(raw)|
  {
    var best := BestTable(raw);
    BestIsDistinct(raw);
    DistinctBestSize(best);
    forall bd | bd in DistinctBds(raw) ensures bd in BestBds(best) {
      var r :| r in raw && r.bdMgtSn == bd;
      var i :| 0 <= i < |raw| && raw[i] == r;
      EveryBuildingHasABestRow(raw, i);
      var k :| 0 <= k < |best| && best[k].raw.bdMgtSn == raw[i].bdMgtSn;
      assert best[k] in best;
    }
    forall bd | bd in BestBds(best) ensures bd in DistinctBds(raw) {
      var c :| c in best && c.raw.bdMgtSn == bd;
      assert c.raw in raw;
    }
    assert BestBds(best) == DistinctBds(raw);
  }

  lemma OnePartnerAtMost(m: Row, best: seq<BestRow>)
    requires DistinctBest(best)
    ensures Partners(m, best) <= 1
  {
    OneMatch(best, (c: BestRow) => SameBuilding(m, c));
  }

  lemma OneServingPartnerAtMost(c: BestRow, mv: seq<Row>)
    requires UniqueServing(mv)
    ensures ServingPartners(c, mv) <= 1
  {
    OneMatch(mv, (m: Row) => SameBuilding(m, c));
  }

  lemma {:induction false} MatchedByCandidate(mv: seq<Row>, best: seq<BestRow>)
    requires best != []
    ensures Matched(mv, best) == ServingPartners(best[0], mv) + Matched(mv, best[1..])
  {
    if mv != [] {
      MatchedByCandidate(mv[1..], best);
    }
  }

  lemma {:induction false} NothingToMatch(mv: seq<Row>)
    ensures Matched(mv, []) == 0
  {
    if mv != [] {
      NothingToMatch(mv[1..]);
    }
  }

  /** Every serving row is matched once or reported as having no candidate. */
  lemma {:induction false} ServingRowsAreAccountedFor(mv: seq<Row>, best: seq<BestRow>)
    requires DistinctBest(best)
    ensures Matched(mv, best) + CurrentOnly(mv, best) == |mv|
  {
    if mv != [] {
      OnePartnerAtMost(mv[0], best);
      ServingRowsAreAccountedFor(mv[1..], best);
    }
  }

  /** Every candidate is matched once or reported as unknown to the serving table. */
  lemma {:induction false} CandidatesAreAccountedFor(mv: seq<Row>, best: seq<BestRow>)
    requires UniqueServing(mv)
    ensures Matched(mv, best) + CandidateOnly(best, mv) == |best|
  {
    if best == [] {
      NothingToMatch(mv);
    } else {
      OneServingPartnerAtMost(best[0], mv);
      MatchedByCandidate(mv, best);
      CandidatesAreAccountedFor(mv, best[1..]);
    }
  }

  /** The matched rows are the serving rows of a building with a candidate, and each serving row of any other is
      reported. */
  lemma {:induction false} MatchedAre(mv: seq<Row>, best: seq<BestRow>)
    requires DistinctBest(best)
    ensures Matched(mv, best)
         == Count((m: Row) => exists c :: c in best && TextOf(m, "bd_mgt_sn") == Some(c.raw.bdMgtSn), mv)
    ensures CurrentOnly(mv, best)
         == Count((m: Row) => !exists c :: c in best && TextOf(m, "bd_mgt_sn") == Some(c.raw.bdMgtSn), mv)
  {
    if mv != [] {
      OnePartnerAtMost(mv[0], best);
      CountZero((c: BestRow) => SameBuilding(mv[0], c), best);
      MatchedAre(mv[1..], best);
    }
  }

  /** The counts of the report balance, from any staging tables, when the serving table has one row per building. */
  lemma CoverageBalances(entrances: seq<EntranceRow>, addresses: seq<AddressRow>, mv: seq<Row>)
    requires UniqueServing(mv)
    ensures var raw := RawTable(entrances, addresses);
      var best := BestTable(raw);
      && |best| == |DistinctBds(raw)|
      && |mv| - CurrentOnly(mv, best) == Matched(mv, best) == |best| - CandidateOnly(best, mv)
      && Count((r: RawRow) => r.bdMgtSn == "", raw) == 0
  {
    var raw := RawTable(entrances, addresses);
    BestIsDistinct(raw);
    BestRowsAreDistinctBds(raw);
    ServingRowsAreAccountedFor(mv, BestTable(raw));
    CandidatesAreAccountedFor(mv, BestTable(raw));
    forall r | r in raw ensures r.bdMgtSn != "" {
      RawRowsAreJoined(entrances, addresses, r);
    }
    CountZero((r: RawRow) => r.bdMgtSn == "", raw);
  }
}
