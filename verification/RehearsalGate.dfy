/**
 * The gate of the shadow rehearsal, and what it comes down to when its summary was collected from the pipeline.
 */
module RehearsalGate {
  import opened Sequences
  import opened Sql
  import opened GuardedPolicy
  import opened Candidates
  import opened ShadowServing

  /** The result of one benchmark section; a section that is missing has no status. */
  datatype Section = Section(status: Option<string>, hardBlocks: seq<string>)

  /** Identities are rows of named values, as they are collected; a value that is missing reads as NULL. */
  datatype Summary = Summary(policyResult: Measure -> nat, publicBefore: Row, releaseBefore: Row, publicAfter: Row,
                             releaseAfter: Row, shadowIdentity: Row, appliedRows: nat, sql: Section,
                             rest: Section, rollback: Option<string>)

  datatype Gate = Gate(status: string, promotionAllowed: bool, hardBlocks: seq<string>, warnings: seq<string>)

  const IDENTITY_KEYS := ["target_rows", "target_point_rows", "text_search_rows", "sample_hash"]

  const RELEASE_KEYS := ["serving_release_id", "dataset_snapshot_id", "mv_hash", "state"]

  predicate Differs(a: Row, b: Row, key: string) { Plain(a, key) != Plain(b, key) }

  /** The keys whose values differ, each in a message. */
  method ChangedKeys(keys: seq<string>, before: Row, after: Row, message: string) returns (blocks: seq<string>)
    ensures |blocks| == Count((key: string) => Differs(before, after, key), keys)
    ensures forall key :: key in keys && Differs(before, after, key) ==> message + key in blocks
  {
    blocks := [];
    for i := 0 to |keys|
      invariant |blocks| == Count((key: string) => Differs(before, after, key), keys[..i])
      invariant forall k :: 0 <= k < i && Differs(before, after, keys[k]) ==> message + keys[k] in blocks
    {
      assert keys[..i + 1] == keys[..i] + [keys[i]] && [keys[i]][1..] == [];
      CountAppend((key: string) => Differs(before, after, key), keys[..i], [keys[i]]);
      if Differs(before, after, keys[i]) {
        blocks := blocks + [message + keys[i]];
      }
    }
    assert keys[..|keys|] == keys;
  }

  ghost predicate Same(keys: seq<string>, a: Row, b: Row) {
    forall key :: key in keys ==> Plain(a, key) == Plain(b, key)
  }

  method FlagOffIdentityBlocks(s: Summary) returns (blocks: seq<string>)
    ensures blocks == [] <==> PublicSideStayed(s)
    ensures forall key :: key in IDENTITY_KEYS && Differs(s.publicBefore, s.publicAfter, key) ==>
      "flag-off public identity changed: " + key in blocks
    ensures forall key :: key in RELEASE_KEYS && Differs(s.releaseBefore, s.releaseAfter, key) ==>
      "flag-off active release changed: " + key in blocks
  {
    var identity := ChangedKeys(IDENTITY_KEYS, s.publicBefore, s.publicAfter, "flag-off public identity changed: ");
    var release := ChangedKeys(RELEASE_KEYS, s.releaseBefore, s.releaseAfter, "flag-off active release changed: ");
    CountZero((key: string) => Differs(s.publicBefore, s.publicAfter, key), IDENTITY_KEYS);
    CountZero((key: string) => Differs(s.releaseBefore, s.releaseAfter, key), RELEASE_KEYS);
    blocks := identity + release;
    StayedIff(s);
  }

  /** The counts, the points and the sample of the public side, and the release that serves it, are what they were. */
  ghost predicate PublicSideStayed(s: Summary) {
    && Plain(s.publicBefore, "target_rows") == Plain(s.publicAfter, "target_rows")
    && Plain(s.publicBefore, "target_point_rows") == Plain(s.publicAfter, "target_point_rows")
    && Plain(s.publicBefore, "text_search_rows") == Plain(s.publicAfter, "text_search_rows")
    && Plain(s.publicBefore, "sample_hash") == Plain(s.publicAfter, "sample_hash")
    && Plain(s.releaseBefore, "serving_release_id") == Plain(s.releaseAfter, "serving_release_id")
    && Plain(s.releaseBefore, "dataset_snapshot_id") == Plain(s.releaseAfter, "dataset_snapshot_id")
    && Plain(s.releaseBefore, "mv_hash") == Plain(s.releaseAfter, "mv_hash")
    && Plain(s.releaseBefore, "state") == Plain(s.releaseAfter, "state")
  }

  lemma SameFour(keys: seq<string>, a: Row, b: Row)
    requires |keys| == 4
    ensures Same(keys, a, b) <==>
      Plain(a, keys[0]) == Plain(b, keys[0]) && Plain(a, keys[1]) == Plain(b, keys[1])
      && Plain(a, keys[2]) == Plain(b, keys[2]) && Plain(a, keys[3]) == Plain(b, keys[3])
  {
    assert keys == [keys[0], keys[1], keys[2], keys[3]];
  }

  lemma StayedIff(s: Summary)
    ensures PublicSideStayed(s)
      <==> Same(IDENTITY_KEYS, s.publicBefore, s.publicAfter) && Same(RELEASE_KEYS, s.releaseBefore, s.releaseAfter)
  {
    SameFour(IDENTITY_KEYS, s.publicBefore, s.publicAfter);
    SameFour(RELEASE_KEYS, s.releaseBefore, s.releaseAfter);
  }

  function Prefixed(message: string, items: seq<string>): seq<string> {
    seq(|items|, i requires 0 <= i < |items| => message + items[i])
  }

  lemma PrefixedHas(message: string, items: seq<string>, item: string)
    requires item in items
    ensures message + item in Prefixed(message, items)
  {
    var i :| 0 <= i < |items| && items[i] == item;
    assert Prefixed(message, items)[i] == message + item;
  }

  function StatusText(status: Option<string>): string {
    if status.None? || status.value == "" then "missing" else status.value
  }

  predicate Passed(section: Section) { section.status == Some("passed") && section.hardBlocks == [] }

  method SectionBlocks(name: string, section: Section) returns (blocks: seq<string>)
    ensures blocks == [] <==> Passed(section)
    ensures section.status == None || section.status == Some("") ==> name + " status is missing" in blocks
    ensures section.status.Some? && section.status.value != "" && section.status.value != "passed" ==>
      name + " status is " + section.status.value in blocks
    ensures forall item :: item in section.hardBlocks ==> name + ": " + item in blocks
  {
    blocks := [];
    if section.status != Some("passed") {
      blocks := blocks + [name + " status is " + StatusText(section.status)];
    }
    blocks := blocks + Prefixed(name + ": ", section.hardBlocks);
    if section.status != Some("passed") {
      assert blocks[0] == name + " status is " + StatusText(section.status);
      StatusReads(name, section.status);
    }
    forall item | item in section.hardBlocks ensures name + ": " + item in blocks {
      PrefixedHas(name + ": ", section.hardBlocks, item);
    }
  }

  lemma StatusReads(name: string, status: Option<string>)
    ensures status == None || status == Some("") ==>
      name + " status is " + StatusText(status) == name + " status is missing"
  {
    assert " status is " + "missing" == " status is missing";
    assert name + " status is " + "missing" == name + (" status is " + "missing");
  }

  predicate SameCounts(public: Row, shadow: Row) {
    && Plain(public, "target_rows") == Plain(shadow, "target_rows")
    && Plain(public, "text_search_rows") == Plain(shadow, "text_search_rows")
  }

  /** Everything the gate wants beyond the policy's own gate. */
  ghost predicate ServingUnharmed(s: Summary) {
    PublicSideStayed(s) && SameCounts(s.publicBefore, s.shadowIdentity)
  }

  ghost predicate PolicyPasses(s: Summary) {
    s.policyResult(Used) > 0 && forall m :: BlockingMeasure(m) ==> s.policyResult(m) == 0
  }

  method EvaluateGate(s: Summary) returns (r: Gate)
    ensures r.status == "passed" <==>
      PolicyPasses(s) && ServingUnharmed(s) && s.appliedRows > 0
      && Passed(s.sql) && Passed(s.rest) && s.rollback == Some("dropped")
    ensures r.status == "passed" || r.status == "blocked"
    ensures r.status == "blocked" <==> r.hardBlocks != []
    ensures r.warnings != [] <==> s.policyResult(MovementOver100) > 0
    ensures !r.promotionAllowed
  {
    var policyGate := EvaluatePolicyResult(s.policyResult);
    var hardBlocks := Prefixed("policy: ", policyGate.hardBlocks);
    var warnings := Prefixed("policy: ", policyGate.warnings);
    var identityBlocks := FlagOffIdentityBlocks(s);
    hardBlocks := hardBlocks + identityBlocks;
    assert hardBlocks == [] <==> policyGate.hardBlocks == [] && identityBlocks == [];
    assert policyGate.hardBlocks == [] <==> PolicyPasses(s) by {
      PolicyBlocksIff(s);
      assert |"repeatable_candidate"| != |"blocked"|;
    }
    if Differs(s.publicBefore, s.shadowIdentity, "target_rows") {
      hardBlocks := hardBlocks + ["shadow target row count differs from public"];
    }
    if Differs(s.publicBefore, s.shadowIdentity, "text_search_rows") {
      hardBlocks := hardBlocks + ["shadow text-search row count differs from public"];
    }
    assert hardBlocks == [] <==> PolicyPasses(s) && ServingUnharmed(s);
    if s.appliedRows <= 0 {
      hardBlocks := hardBlocks + ["shadow policy applied no rows"];
    }
    var sqlBlocks := SectionBlocks("sql_benchmark", s.sql);
    var restBlocks := SectionBlocks("rest_benchmark", s.rest);
    hardBlocks := hardBlocks + sqlBlocks + restBlocks;
    if s.rollback != Some("dropped") {
      hardBlocks := hardBlocks + ["rollback status is " + StatusText(s.rollback)];
    }
    r := Gate(if hardBlocks == [] then "passed" else "blocked", false, hardBlocks, warnings);
    assert |"passed"| != |"blocked"|;
  }

  lemma PolicyBlocksIff(s: Summary)
    ensures PolicyPasses(s) <==>
      s.policyResult(Used) > 0 && s.policyResult(C4Over500) == 0 && s.policyResult(C6Error) == 0
      && s.policyResult(C7Error) == 0 && s.policyResult(MovementOver500) == 0
  {
    assert BlockingMeasure(C4Over500) && BlockingMeasure(C6Error)
      && BlockingMeasure(C7Error) && BlockingMeasure(MovementOver500);
  }

  // ---- a summary that was collected from the pipeline ----

  /** `collect_serving_identity` of a serving schema: it counts its two relations as they stand; the sample hash is the
      database's. */
  function IdentityOf(rows: seq<Row>, search: SearchTable, sampleHash: string): Row {
    map["target_rows" := Number(|rows|), "target_point_rows" := Number(Points(rows, "pt_5179")),
        "text_search_rows" := Number(|search.rows|), "sample_hash" := Text(sampleHash)]
  }

  /** The rehearsal over staging tables and the public text-search view as it stands: the flag-off identity before, the
      policy counts, the shadow identity, and the rest as given. */
  function Collected(st: Staging, view: SearchTable, sp: Spatial, month: string, config: Config, columns: seq<string>,
                     transform: Geometry -> Geometry, hashes: (string, string), given: Summary): Summary
  {
    var fs := Features(st, sp, month);
    var shadow := ShadowTable(columns, st.mv, PolicyBds(config, fs), Best(st), transform);
    given.(policyResult := m => CountFor(Clauses(config), m, fs), appliedRows := CountFor(Clauses(config), Used, fs),
           publicBefore := IdentityOf(st.mv, view, hashes.0),
           shadowIdentity := IdentityOf(shadow, ShadowSearch(shadow), hashes.1))
  }

  lemma IdentityValues(rows: seq<Row>, search: SearchTable, sampleHash: string)
    ensures Plain(IdentityOf(rows, search, sampleHash), "target_rows") == Number(|rows|)
    ensures Plain(IdentityOf(rows, search, sampleHash), "text_search_rows") == Number(|search.rows|)
    ensures Plain(IdentityOf(rows, search, sampleHash), "target_point_rows")
         == Number(Count((row: Row) => "pt_5179" in row && row["pt_5179"].Point?, rows))
  {
    assert Points(rows, "pt_5179") == Count((row: Row) => "pt_5179" in row && row["pt_5179"].Point?, rows) by {
      SamePoints(rows);
    }
    assert |"target_rows"| == 11 && |"target_point_rows"| == 17 && |"text_search_rows"| == 16;
    assert "target_rows" != "sample_hash" by { assert "target_rows"[0] != "sample_hash"[0]; }
  }

  lemma SamePoints(rows: seq<Row>)
    ensures Points(rows, "pt_5179") == Count((row: Row) => "pt_5179" in row && row["pt_5179"].Point?, rows)
  {
    CountSame((row: Row) => HasPoint(row, "pt_5179"), (row: Row) => "pt_5179" in row && row["pt_5179"].Point?, rows);
  }

  /** As many rows as the public table has searchable ones: so it is when the view is fresh. */
  predicate ViewIsInStep(view: SearchTable, mv: seq<Row>) {
    |view.rows| == Count((row: Row) => Searchable(row), mv)
  }

  lemma FreshViewIsInStep(mv: seq<Row>)
    ensures ViewIsInStep(PublicSearch(mv), mv)
  {
    SearchRowsAreCounted(PUBLIC_COLUMNS, mv);
  }

  /** From any staging tables with one text row and one serving row per building, and under guarded limits: the gate
      passes exactly when some building is selected, the public text-search view is in step with the public table, the
      public tables and the active release stayed as they were, both benchmarks passed and the shadow was dropped. */
  method GateOfThePipeline(st: Staging, view: SearchTable, sp: Spatial, month: string, config: Config,
                           columns: seq<string>, transform: Geometry -> Geometry, hashes: (string, string),
                           given: Summary)
    returns (r: Gate)
    requires UniqueText(st.texts) && UniqueServing(st.mv) && Guarded(config)
    requires "pt_5179" in columns && "pt_4326" in columns
    requires forall i :: 0 <= i < |st.mv| ==> RowOf(columns, st.mv[i])
    ensures r.status == "passed" <==>
      && (exists f :: f in Features(st, sp, month) && Selected(config, f))
      && ViewIsInStep(view, st.mv)
      && PublicSideStayed(given.(publicBefore := IdentityOf(st.mv, view, hashes.0)))
      && Passed(given.sql) && Passed(given.rest) && given.rollback == Some("dropped")
  {
    var s := Collected(st, view, sp, month, config, columns, transform, hashes, given);
    PipelineBlocksIff(st, view, sp, month, config, columns, transform, hashes, given);
    r := EvaluateGate(s);
  }

  /** What the pipeline itself contributes: the error counts never block, and the row counts do exactly when the public
      text-search view is out of step with the public table. */
  lemma PipelineBlocksIff(st: Staging, view: SearchTable, sp: Spatial, month: string, config: Config,
                          columns: seq<string>, transform: Geometry -> Geometry, hashes: (string, string),
                          given: Summary)
    requires UniqueText(st.texts) && UniqueServing(st.mv) && Guarded(config)
    requires "pt_5179" in columns && "pt_4326" in columns
    requires forall i :: 0 <= i < |st.mv| ==> RowOf(columns, st.mv[i])
    ensures var s := Collected(st, view, sp, month, config, columns, transform, hashes, given);
      && (SameCounts(s.publicBefore, s.shadowIdentity) <==> ViewIsInStep(view, st.mv))
      && (forall m :: BlockingMeasure(m) ==> s.policyResult(m) == 0)
      && s.appliedRows == s.policyResult(Used)
      && (s.appliedRows > 0 <==> exists f :: f in Features(st, sp, month) && Selected(config, f))
  {
    var fs := Features(st, sp, month);
    var shadow := ShadowTable(columns, st.mv, PolicyBds(config, fs), Best(st), transform);
    ShadowOfThePipeline(st, sp, month, config, columns, transform);
    IdentityValues(st.mv, view, hashes.0);
    IdentityValues(shadow, ShadowSearch(shadow), hashes.1);
    SearchRowsAreCounted(PUBLIC_COLUMNS, st.mv);
    FeaturesArePerBuilding(st, sp, month);
    forall m | BlockingMeasure(m) ensures CountFor(Clauses(config), m, fs) == 0 {
      GuardedPolicyHasNoErrors(config, m, fs);
    }
    CountIsZeroIff(config, Used, fs);
  }

  /** Behind a fresh view neither the row counts nor the error counts ever block. */
  lemma PipelineNeverBlocks(st: Staging, sp: Spatial, month: string, config: Config, columns: seq<string>,
                            transform: Geometry -> Geometry, hashes: (string, string), given: Summary)
    requires UniqueText(st.texts) && UniqueServing(st.mv) && Guarded(config)
    requires "pt_5179" in columns && "pt_4326" in columns
    requires forall i :: 0 <= i < |st.mv| ==> RowOf(columns, st.mv[i])
    ensures var s := Collected(st, PublicSearch(st.mv), sp, month, config, columns, transform, hashes, given);
      && SameCounts(s.publicBefore, s.shadowIdentity)
      && (forall m :: BlockingMeasure(m) ==> s.policyResult(m) == 0)
      && (s.appliedRows > 0 <==> exists f :: f in Features(st, sp, month) && Selected(config, f))
  {
    PipelineBlocksIff(st, PublicSearch(st.mv), sp, month, config, columns, transform, hashes, given);
    FreshViewIsInStep(st.mv);
  }
}
