/**
 * The summary rows of the query benchmark: measurements grouped by query, name and concurrency.
 */
module Summaries {
  import opened Sequences
  import opened Sorting
  import opened Percentile

  datatype GroupKey = GroupKey(group: string, sqlName: string, concurrency: int)

  datatype Measurement = Measurement(key: GroupKey, warmup: bool, ok: bool, elapsedMs: real, rowCount: int,
                                     checkoutMs: Option<real>, executeMs: Option<real>)

  /** An entry of the grouping dictionary, which keeps its keys in the order of their first use. */
  datatype Group = Group(key: GroupKey, rows: seq<Measurement>)

  datatype SummaryRow = SummaryRow(key: GroupKey, samples: nat, errors: nat, p50: Option<real>, p90: Option<real>,
                                   p95: Option<real>, p95Checkout: Option<real>, p95Execute: Option<real>,
                                   p99: Option<real>, max: Option<real>, avgRows: Option<real>)

  function Add(groups: seq<Group>, m: Measurement): seq<Group> {
    if groups == [] then [Group(m.key, [m])]
    else if groups[0].key == m.key then [groups[0].(rows := groups[0].rows + [m])] + groups[1..]
    else [groups[0]] + Add(groups[1..], m)
  }

  function Grouped(ms: seq<Measurement>): seq<Group> {
    if ms == [] then []
    else
      var before, m := Grouped(ms[..|ms| - 1]), ms[|ms| - 1];
      if m.warmup then before else Add(before, m)
  }

  const ELAPSED: Measurement -> Option<real> := (m: Measurement) => Some(m.elapsedMs)
  const CHECKOUT: Measurement -> Option<real> := (m: Measurement) => m.checkoutMs
  const EXECUTE: Measurement -> Option<real> := (m: Measurement) => m.executeMs

  /** One of the times of the successful measurements, where it was taken. */
  function Times(rows: seq<Measurement>, time: Measurement -> Option<real>): seq<real> {
    if rows == [] then []
    else (if rows[0].ok && time(rows[0]).Some? then [time(rows[0]).value] else []) + Times(rows[1..], time)
  }

  function Elapsed(rows: seq<Measurement>): seq<real> { Times(rows, ELAPSED) }

  /** The rows that the successful measurements returned. */
  function RowsReturned(rows: seq<Measurement>): int {
    if rows == [] then 0 else (if rows[0].ok then rows[0].rowCount else 0) + RowsReturned(rows[1..])
  }

  function Errors(rows: seq<Measurement>): nat { Count((m: Measurement) => !m.ok, rows) }

  function Largest(s: seq<real>): (m: real)
    requires s != []
    ensures m in s && forall i :: 0 <= i < |s| ==> s[i] <= m
  {
    if |s| == 1 then s[0]
    else
      var rest := Largest(s[1..]);
      assert s == [s[0]] + s[1..];
      if s[0] <= rest then rest else s[0]
  }

  function Rounded(o: Outcome, round: real -> real): Option<real> {
    if o.Quantile? then Some(round(o.value)) else None
  }

  function RowOf(g: Group, round: real -> real): SummaryRow {
    var elapsed := Elapsed(g.rows);
    SummaryRow(
      g.key, |g.rows|, Errors(g.rows),
      Rounded(PercentileOf(elapsed, 50.0), round), Rounded(PercentileOf(elapsed, 90.0), round),
      Rounded(PercentileOf(elapsed, 95.0), round), Rounded(PercentileOf(Times(g.rows, CHECKOUT), 95.0), round),
      Rounded(PercentileOf(Times(g.rows, EXECUTE), 95.0), round), Rounded(PercentileOf(elapsed, 99.0), round),
      if elapsed == [] then None else Some(round(Largest(elapsed))),
      if elapsed == [] then None else Some(round(RowsReturned(g.rows) as real / |elapsed| as real)))
  }

  /** `keyLe` is the order of the key tuples. */
  function Summary(ms: seq<Measurement>, keyLe: (GroupKey, GroupKey) -> bool, round: real -> real): seq<SummaryRow> {
    RowsOf(Sort((a: Group, b: Group) => keyLe(a.key, b.key), Grouped(ms)), round)
  }

  function RowsOf(groups: seq<Group>, round: real -> real): seq<SummaryRow> {
    seq(|groups|, i requires 0 <= i < |groups| => RowOf(groups[i], round))
  }

  lemma RowsOfSnoc(groups: seq<Group>, n: nat, round: real -> real)
    requires n < |groups|
    ensures RowsOf(groups[..n + 1], round) == RowsOf(groups[..n], round) + [RowOf(groups[n], round)]
  {
  }

  method SummarizeMeasurements(ms: seq<Measurement>, keyLe: (GroupKey, GroupKey) -> bool, round: real -> real)
    returns (summaries: seq<SummaryRow>)
    ensures summaries == Summary(ms, keyLe, round)
  {
    var grouped: seq<Group> := [];
    for i := 0 to |ms|
      invariant grouped == Grouped(ms[..i])
    {
      assert ms[..i + 1][..i] == ms[..i];
      if !ms[i].warmup {
        grouped := Add(grouped, ms[i]);
      }
    }
    assert ms[..|ms|] == ms;
    var items := Sort((a: Group, b: Group) => keyLe(a.key, b.key), grouped);
    summaries := [];
    for i := 0 to |items|
      invariant summaries == RowsOf(items[..i], round)
    {
      RowsOfSnoc(items, i, round);
      summaries := summaries + [RowOf(items[i], round)];
    }
    assert items[..|items|] == items;
  }

  // ---- nothing is lost or counted twice ----

  predicate Belongs(m: Measurement, key: GroupKey) { !m.warmup && m.key == key }

  function Members(ms: seq<Measurement>, key: GroupKey): seq<Measurement> {
    if ms == [] then []
    else Members(ms[..|ms| - 1], key) + if Belongs(ms[|ms| - 1], key) then [ms[|ms| - 1]] else []
  }

  ghost predicate DistinctKeys(groups: seq<Group>) {
    forall i, j :: 0 <= i < j < |groups| ==> groups[i].key != groups[j].key
  }

  lemma {:induction false} AddToGroups(groups: seq<Group>, m: Measurement)
    requires DistinctKeys(groups)
    ensures var r := Add(groups, m);
      && DistinctKeys(r)
      && |groups| <= |r| <= |groups| + 1
      && (forall i :: 0 <= i < |groups| ==>
            r[i] == if groups[i].key == m.key then Group(m.key, groups[i].rows + [m]) else groups[i])
      && (|r| > |groups| ==> r[|groups|] == Group(m.key, [m]))
      && (|r| > |groups| ==> forall i :: 0 <= i < |groups| ==> groups[i].key != m.key)
      && (|r| == |groups| ==> exists i :: 0 <= i < |groups| && groups[i].key == m.key)
  {
    if groups != [] && groups[0].key != m.key {
      AddToGroups(groups[1..], m);
      var rest := Add(groups[1..], m);
      var r := Add(groups, m);
      assert r == [groups[0]] + rest;
      if |rest| == |groups[1..]| {
        var i :| 0 <= i < |groups[1..]| && groups[1..][i].key == m.key;
        assert groups[i + 1].key == m.key;
      }
    }
  }

  ghost predicate HasGroup(groups: seq<Group>, key: GroupKey) {
    exists i :: 0 <= i < |groups| && groups[i].key == key
  }

  lemma {:induction false} KeysAfterAdd(groups: seq<Group>, m: Measurement, key: GroupKey)
    ensures HasGroup(Add(groups, m), key) <==> HasGroup(groups, key) || key == m.key
  {
    if groups == [] {
      assert [Group(m.key, [m])][0].key == m.key;
    } else if groups[0].key == m.key {
      var r := Add(groups, m);
      assert r[0].key == groups[0].key && r[1..] == groups[1..];
      assert |r| == |groups| && forall i :: 0 <= i < |r| ==> r[i].key == groups[i].key;
    } else {
      KeysAfterAdd(groups[1..], m, key);
      HasGroupCons(groups[0], groups[1..], key);
      HasGroupCons(groups[0], Add(groups[1..], m), key);
      assert groups == [groups[0]] + groups[1..];
    }
  }

  lemma HasGroupCons(g: Group, rest: seq<Group>, key: GroupKey)
    ensures HasGroup([g] + rest, key) <==> g.key == key || HasGroup(rest, key)
  {
    var all := [g] + rest;
    assert all[0] == g;
    if HasGroup(rest, key) {
      var i :| 0 <= i < |rest| && rest[i].key == key;
      assert all[i + 1].key == key;
    }
  }

  lemma {:induction false} EveryMemberHasAGroup(ms: seq<Measurement>, key: GroupKey)
    ensures HasGroup(Grouped(ms), key) <==> Members(ms, key) != []
  {
    if ms != [] {
      var before, m := ms[..|ms| - 1], ms[|ms| - 1];
      EveryMemberHasAGroup(before, key);
      if !m.warmup {
        KeysAfterAdd(Grouped(before), m, key);
      }
    }
  }

  ghost predicate Exact(groups: seq<Group>, ms: seq<Measurement>) {
    forall i :: 0 <= i < |groups| ==> groups[i].rows == Members(ms, groups[i].key) != []
  }

  lemma ExactAfterAdd(groups: seq<Group>, before: seq<Measurement>, m: Measurement)
    requires DistinctKeys(groups) && Exact(groups, before) && !m.warmup
    requires HasGroup(groups, m.key) <==> Members(before, m.key) != []
    ensures DistinctKeys(Add(groups, m)) && Exact(Add(groups, m), before + [m])
  {
    var r, ms := Add(groups, m), before + [m];
    AddToGroups(groups, m);
    assert ms[..|before|] == before;
    forall i | 0 <= i < |r| ensures r[i].rows == Members(ms, r[i].key) != [] {
      if i < |groups| {
        assert groups[i].rows == Members(before, groups[i].key);
      }
    }
  }

  /** Every group holds exactly the measurements of its key that are no warm-up, in their order, and every such
      measurement is in a group. */
  lemma {:induction false} GroupsAreMembers(ms: seq<Measurement>)
    ensures DistinctKeys(Grouped(ms)) && Exact(Grouped(ms), ms)
    ensures forall key :: HasGroup(Grouped(ms), key) <==> Members(ms, key) != []
  {
    forall key ensures HasGroup(Grouped(ms), key) <==> Members(ms, key) != [] {
      EveryMemberHasAGroup(ms, key);
    }
    if ms != [] {
      var before, m := ms[..|ms| - 1], ms[|ms| - 1];
      assert ms == before + [m];
      GroupsAreMembers(before);
      if !m.warmup {
        ExactAfterAdd(Grouped(before), before, m);
      } else {
        assert forall key :: Members(ms, key) == Members(before, key) + [];
      }
    }
  }

  function TotalRows(groups: seq<Group>): nat {
    if groups == [] then 0 else |groups[0].rows| + TotalRows(groups[1..])
  }

  lemma {:induction false} AddGrowsTotal(groups: seq<Group>, m: Measurement)
    ensures TotalRows(Add(groups, m)) == TotalRows(groups) + 1
  {
    if groups == [] {
      assert [Group(m.key, [m])][1..] == [];
    } else if groups[0].key != m.key {
      AddGrowsTotal(groups[1..], m);
    }
  }

  lemma {:induction false} GroupedTotal(ms: seq<Measurement>)
    ensures TotalRows(Grouped(ms)) == Count((m: Measurement) => !m.warmup, ms)
  {
    if ms != [] {
      var before, m := ms[..|ms| - 1], ms[|ms| - 1];
      var p := (m: Measurement) => !m.warmup;
      GroupedTotal(before);
      assert ms == before + [m];
      CountAppend(p, before, [m]);
      assert [m][1..] == [];
      AddGrowsTotal(Grouped(before), m);
    }
  }

  lemma {:induction false} TotalRowsAppend(a: seq<Group>, b: seq<Group>)
    ensures TotalRows(a + b) == TotalRows(a) + TotalRows(b)
  {
    if a == [] {
      assert a + b == b;
    } else {
      assert (a + b)[1..] == a[1..] + b;
      TotalRowsAppend(a[1..], b);
    }
  }

  lemma TotalRowsInserted(before: seq<Group>, g: Group, after: seq<Group>)
    ensures TotalRows(before + [g] + after) == |g.rows| + TotalRows(before + after)
  {
    TotalRowsAppend(before + [g], after);
    TotalRowsAppend(before, [g]);
    TotalRowsAppend(before, after);
    assert [g][1..] == [];
  }

  lemma {:induction false} TotalRowsPermutation(a: seq<Group>, b: seq<Group>)
    requires multiset(a) == multiset(b)
    ensures TotalRows(a) == TotalRows(b)
  {
    if a == [] {
      assert |multiset(b)| == 0;
    } else {
      var j, rest := TakeFirstOut(a, b);
      TotalRowsPermutation(a[1..], rest);
      TotalRowsInserted(b[..j], a[0], b[j + 1..]);
    }
  }

  function TotalSamples(rows: seq<SummaryRow>): nat {
    if rows == [] then 0 else rows[0].samples + TotalSamples(rows[1..])
  }

  lemma {:induction false} SamplesAreRows(groups: seq<Group>, round: real -> real)
    ensures TotalSamples(RowsOf(groups, round)) == TotalRows(groups)
  {
    if groups != [] {
      assert RowsOf(groups, round)[1..] == RowsOf(groups[1..], round);
      SamplesAreRows(groups[1..], round);
    }
  }

  /** The samples of all summary rows add up to the measurements that are no warm-up. */
  lemma SamplesAddUp(ms: seq<Measurement>, keyLe: (GroupKey, GroupKey) -> bool, round: real -> real)
    requires TotalPreorder((a: Group, b: Group) => keyLe(a.key, b.key))
    ensures TotalSamples(Summary(ms, keyLe, round)) == Count((m: Measurement) => !m.warmup, ms)
  {
    var le := (a: Group, b: Group) => keyLe(a.key, b.key);
    SortSorts(le, Grouped(ms));
    TotalRowsPermutation(Sort(le, Grouped(ms)), Grouped(ms));
    GroupedTotal(ms);
    SamplesAreRows(Sort(le, Grouped(ms)), round);
  }

  lemma SortedGroups(ms: seq<Measurement>, keyLe: (GroupKey, GroupKey) -> bool)
    requires TotalPreorder((a: Group, b: Group) => keyLe(a.key, b.key))
    ensures var items := Sort((a: Group, b: Group) => keyLe(a.key, b.key), Grouped(ms));
      && Exact(items, ms)
      && (forall i, j :: 0 <= i < j < |items| ==> keyLe(items[i].key, items[j].key))
  {
    var le := (a: Group, b: Group) => keyLe(a.key, b.key);
    var groups := Grouped(ms);
    var items := Sort(le, groups);
    SortSorts(le, groups);
    GroupsAreMembers(ms);
    forall i | 0 <= i < |items| ensures items[i].rows == Members(ms, items[i].key) != [] {
      assert items[i] in multiset(items);
      var k :| 0 <= k < |groups| && groups[k] == items[i];
    }
    forall i, j | 0 <= i < j < |items| ensures keyLe(items[i].key, items[j].key) {
      assert le(items[i], items[j]);
    }
  }

  lemma RowsOfExact(items: seq<Group>, ms: seq<Measurement>, round: real -> real)
    requires Exact(items, ms)
    ensures var rows := RowsOf(items, round);
      && |rows| == |items|
      && (forall i :: 0 <= i < |rows| ==> rows[i].key == items[i].key && Members(ms, rows[i].key) != [])
      && (forall i :: 0 <= i < |rows| ==> rows[i] == RowOf(Group(rows[i].key, Members(ms, rows[i].key)), round))
  {
    forall i | 0 <= i < |items| ensures items[i] == Group(items[i].key, Members(ms, items[i].key)) {
      assert items[i].rows == Members(ms, items[i].key);
    }
  }

  /** Each summary row reports exactly the non-warm-up measurements of its key, and the rows come in the order of their
      keys. */
  lemma RowsReportTheirMembers(ms: seq<Measurement>, keyLe: (GroupKey, GroupKey) -> bool, round: real -> real)
    requires TotalPreorder((a: Group, b: Group) => keyLe(a.key, b.key))
    ensures var rows := Summary(ms, keyLe, round);
      && (forall i :: 0 <= i < |rows| ==> Members(ms, rows[i].key) != [])
      && (forall i :: 0 <= i < |rows| ==> rows[i] == RowOf(Group(rows[i].key, Members(ms, rows[i].key)), round))
      && (forall i, j :: 0 <= i < j < |rows| ==> keyLe(rows[i].key, rows[j].key))
  {
    SortedGroups(ms, keyLe);
    RowsOfExact(Sort((a: Group, b: Group) => keyLe(a.key, b.key), Grouped(ms)), ms, round);
  }

  // ---- the percentiles of one row ----

  ghost predicate Monotone(round: real -> real) {
    forall x, y :: x <= y ==> round(x) <= round(y)
  }

  lemma {:induction false} ElapsedAndErrors(rows: seq<Measurement>)
    ensures |Elapsed(rows)| + Errors(rows) == |rows|
  {
    if rows != [] {
      ElapsedAndErrors(rows[1..]);
    }
  }

  /** What the columns are: the counts of the measurements and of those that failed, the percentiles 50, 90, 95 and 99
      and the maximum of the elapsed times of those that did not, the percentile 95 of the checkouts and of the
      executions among them that were timed, and the average of the rows they returned. */
  lemma ColumnsAre(g: Group, round: real -> real)
    ensures var r := RowOf(g, round);
      var elapsed := Times(g.rows, (m: Measurement) => Some(m.elapsedMs));
      && r.key == g.key && r.samples == |g.rows| && r.errors == Count((m: Measurement) => !m.ok, g.rows)
      && r.p50 == Rounded(PercentileOf(elapsed, 50.0), round) && r.p90 == Rounded(PercentileOf(elapsed, 90.0), round)
      && r.p95 == Rounded(PercentileOf(elapsed, 95.0), round) && r.p99 == Rounded(PercentileOf(elapsed, 99.0), round)
      && r.p95Checkout == Rounded(PercentileOf(Times(g.rows, (m: Measurement) => m.checkoutMs), 95.0), round)
      && r.p95Execute == Rounded(PercentileOf(Times(g.rows, (m: Measurement) => m.executeMs), 95.0), round)
      && (elapsed != [] ==> exists t :: t in elapsed && r.max == Some(round(t)) && forall u :: u in elapsed ==> u <= t)
  {
    SameTimes(g.rows, ELAPSED, (m: Measurement) => Some(m.elapsedMs));
    SameTimes(g.rows, CHECKOUT, (m: Measurement) => m.checkoutMs);
    SameTimes(g.rows, EXECUTE, (m: Measurement) => m.executeMs);
    var elapsed := Elapsed(g.rows);
    if elapsed != [] {
      var t := Largest(elapsed);
      forall u | u in elapsed ensures u <= t {
        var i :| 0 <= i < |elapsed| && elapsed[i] == u;
      }
      assert t in elapsed && RowOf(g, round).max == Some(round(t));
    }
  }

  lemma {:induction false} SameTimes(rows: seq<Measurement>, f: Measurement -> Option<real>,
                                     g: Measurement -> Option<real>)
    requires forall m :: f(m) == g(m)
    ensures Times(rows, f) == Times(rows, g)
  {
    if rows != [] {
      SameTimes(rows[1..], f, g);
    }
  }

  /** In every row the percentiles are in order and none exceeds the maximum, under any monotone rounding; they are
      there exactly when some sample succeeded. */
  lemma PercentilesAreInOrder(g: Group, round: real -> real)
    requires Monotone(round)
    ensures var r := RowOf(g, round);
      if r.errors == r.samples then r.p50.None? && r.p90.None? && r.p95.None? && r.p99.None? && r.max.None?
      else
        && r.p50.Some? && r.p90.Some? && r.p95.Some? && r.p99.Some? && r.max.Some?
        && r.p50.value <= r.p90.value <= r.p95.value <= r.p99.value <= r.max.value
  {
    var elapsed := Elapsed(g.rows);
    ElapsedAndErrors(g.rows);
    if elapsed != [] {
      GrowsWithQ(elapsed, 50.0, 90.0);
      GrowsWithQ(elapsed, 90.0, 95.0);
      GrowsWithQ(elapsed, 95.0, 99.0);
      var least := Smallest(elapsed);
      BetweenLeastAndGreatest(elapsed, 99.0, least, Largest(elapsed));
    }
  }

  /** If every successful measurement took a phase apart and it was no longer than the whole, its p95 is no longer
      either. */
  lemma PhaseIsWithinTheWhole(g: Group, phase: Measurement -> Option<real>, round: real -> real)
    requires Monotone(round)
    requires forall m :: m in g.rows && m.ok ==> phase(m).Some? && phase(m).value <= m.elapsedMs
    ensures var part := Rounded(PercentileOf(Times(g.rows, phase), 95.0), round);
      var whole := RowOf(g, round).p95;
      if whole.None? then part.None? else part.Some? && part.value <= whole.value
  {
    PhaseByPhase(g.rows, phase);
    if Elapsed(g.rows) != [] {
      GrowsWithSamples(Times(g.rows, phase), Elapsed(g.rows), 95.0);
    }
  }

  lemma {:induction false} PhaseByPhase(rows: seq<Measurement>, phase: Measurement -> Option<real>)
    requires forall m :: m in rows && m.ok ==> phase(m).Some? && phase(m).value <= m.elapsedMs
    ensures var part, whole := Times(rows, phase), Elapsed(rows);
      |part| == |whole| && forall i :: 0 <= i < |part| ==> part[i] <= whole[i]
  {
    if rows != [] {
      assert rows[0] in rows && forall m :: m in rows[1..] ==> m in rows;
      PhaseByPhase(rows[1..], phase);
    }
  }

  /** The average lies between any bounds on the rows that single successful measurements returned. */
  lemma AverageIsBetween(g: Group, round: real -> real, least: int, greatest: int)
    requires Monotone(round) && forall m :: m in g.rows && m.ok ==> least <= m.rowCount <= greatest
    ensures var avg := RowOf(g, round).avgRows;
      avg.Some? ==> round(least as real) <= avg.value <= round(greatest as real)
  {
    var n := |Elapsed(g.rows)|;
    ReturnedBetween(g.rows, least, greatest);
    if n > 0 {
      Quotient(RowsReturned(g.rows), n, least, greatest);
    }
  }

  lemma Quotient(total: int, n: nat, least: int, greatest: int)
    requires n > 0 && n * least <= total <= n * greatest
    ensures least as real <= total as real / n as real <= greatest as real
  {
    var q := total as real / n as real;
    assert q * n as real == total as real;
    assert (n * least) as real == n as real * least as real && (n * greatest) as real == n as real * greatest as real;
    assert n as real * (q - least as real) >= 0.0 && n as real * (greatest as real - q) >= 0.0;
  }

  lemma OneMore(n: nat, x: int)
    ensures (n + 1) * x == n * x + x
  {
  }

  lemma {:induction false} ReturnedBetween(rows: seq<Measurement>, least: int, greatest: int)
    requires forall m :: m in rows && m.ok ==> least <= m.rowCount <= greatest
    ensures |Elapsed(rows)| * least <= RowsReturned(rows) <= |Elapsed(rows)| * greatest
  {
    if rows != [] {
      assert rows[0] in rows && forall m :: m in rows[1..] ==> m in rows;
      ReturnedBetween(rows[1..], least, greatest);
      var n := |Elapsed(rows[1..])|;
      OneMore(n, least);
      OneMore(n, greatest);
      if rows[0].ok {
        assert |Elapsed(rows)| == n + 1;
        assert RowsReturned(rows) == rows[0].rowCount + RowsReturned(rows[1..]);
      } else {
        assert Elapsed(rows) == [] + Elapsed(rows[1..]);
        assert |Elapsed(rows)| == n;
      }
    }
  }

  lemma {:induction false} Smallest(s: seq<real>) returns (m: real)
    requires s != []
    ensures forall i :: 0 <= i < |s| ==> m <= s[i]
  {
    m := s[0];
    if |s| > 1 {
      var rest := Smallest(s[1..]);
      m := if s[0] <= rest then s[0] else rest;
    }
  }
}
