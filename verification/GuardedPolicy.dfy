/**
 * The guarded C11 policy: its predicate over the feature table, the counts that report on it and the gate that judges
 * them.
 */
module GuardedPolicy {
  import opened Sequences
  import opened Sql
  import opened Candidates

  /** A boolean column of the feature table is a `Truth`, NULL being `Unknown`. */
  datatype Feature = Feature(
    bdMgtSn: string, textSourceYyyymm: Option<string>, candidateSourceYyyymm: Option<string>,
    currentPtSource: Option<string>,
    candidatesPerBd: int, baselineHasEntrance: bool, movementM: Option<real>, candidateC4DistM: Option<real>,
    baselineC4DistM: Option<real>, candidateC4Over500: Truth, baselineC4Over500: Truth,
    candidateC6Ok: Truth, baselineC6Ok: Truth, candidateC7Ok: Truth, baselineC7Ok: Truth)

  /** What the geometry functions and the lateral sub-queries return for a base row; each may be NULL. */
  datatype Spatial = Spatial(
    movement: Base -> Option<real>, candidateBuilding: Base -> Option<real>, baselineBuilding: Base -> Option<real>,
    candidateZip: Base -> Truth, baselineZip: Base -> Truth, candidateEmd: Base -> Truth, baselineEmd: Base -> Truth)

  function Coalesce(t: Truth, default: bool): Truth { if t == Unknown then Lift(default) else t }

  function FeatureOf(b: Base, sp: Spatial, candidateMonth: string): Feature {
    Feature(
      BaseBd(b), b.text.sourceYyyymm, Some(candidateMonth), TextOf(b.serving, "pt_source"),
      b.best.candidatesPerBd, b.entrance.Some?, sp.movement(b), sp.candidateBuilding(b),
      sp.baselineBuilding(b), Above(sp.candidateBuilding(b), 500.0), Above(sp.baselineBuilding(b), 500.0),
      Coalesce(sp.candidateZip(b), false), Coalesce(sp.baselineZip(b), true),
      Coalesce(sp.candidateEmd(b), false), Coalesce(sp.baselineEmd(b), true))
  }

  function FeatureTable(base: seq<Base>, sp: Spatial, candidateMonth: string): seq<Feature> {
    seq(|base|, i requires 0 <= i < |base| => FeatureOf(base[i], sp, candidateMonth))
  }

  /** What the feature query guarantees of its columns. */
  ghost predicate Derived(f: Feature) {
    f.candidateC4Over500 == Above(f.candidateC4DistM, 500.0)
  }

  /** What the columns mean: an unknown candidate point is not covered, an unknown baseline point is; nothing else is
      decided for NULL. */
  lemma FeatureColumns(b: Base, sp: Spatial, month: string)
    ensures var f := FeatureOf(b, sp, month);
      && f.bdMgtSn == b.best.raw.bdMgtSn && f.candidatesPerBd == b.best.candidatesPerBd
      && f.textSourceYyyymm == b.text.sourceYyyymm && f.candidateSourceYyyymm == Some(month)
      && f.currentPtSource == TextOf(b.serving, "pt_source") && (f.baselineHasEntrance <==> b.entrance.Some?)
      && f.movementM == sp.movement(b)
      && f.candidateC4DistM == sp.candidateBuilding(b) && f.baselineC4DistM == sp.baselineBuilding(b)
      && (f.candidateC4Over500 == True <==> f.candidateC4DistM.Some? && f.candidateC4DistM.value > 500.0)
      && (f.baselineC4Over500 == True <==> f.baselineC4DistM.Some? && f.baselineC4DistM.value > 500.0)
      && f.candidateC6Ok == (if sp.candidateZip(b) == True then True else False)
      && f.candidateC7Ok == (if sp.candidateEmd(b) == True then True else False)
      && f.baselineC6Ok == (if sp.baselineZip(b) == False then False else True)
      && f.baselineC7Ok == (if sp.baselineEmd(b) == False then False else True)
  {
  }

  // ---- the predicate ----

  datatype PointSource = Centroid | AnySource

  datatype Config = Config(currentPtSource: PointSource, buildingDistanceMaxM: real, movementMaxM: Option<real>,
                           requireC6C7Ok: bool, requireSingleCandidate: bool, requireSameSourceMonth: bool)

  datatype Clause =
    | BuildingWithin(limit: real)
    | SourceIs(source: string)
    | C6AndC7Ok
    | MovementWithin(limit: real)
    | SingleCandidate
    | SameMonth

  function Holds(c: Clause, f: Feature): Truth {
    match c
    case BuildingWithin(limit) => AtMost(f.candidateC4DistM, limit)
    case SourceIs(source) => Equal(f.currentPtSource, Some(source))
    case C6AndC7Ok => And(f.candidateC6Ok, f.candidateC7Ok)
    case MovementWithin(limit) => AtMost(f.movementM, limit)
    case SingleCandidate => Lift(f.candidatesPerBd == 1)
    case SameMonth => Equal(f.textSourceYyyymm, f.candidateSourceYyyymm)
  }

  /** The clauses joined by AND. */
  function HoldAll(clauses: seq<Clause>, f: Feature): Truth {
    if clauses == [] then True else And(Holds(clauses[0], f), HoldAll(clauses[1..], f))
  }

  function Clauses(config: Config): seq<Clause> {
    [BuildingWithin(config.buildingDistanceMaxM)]
    + (if config.currentPtSource != AnySource then [SourceIs("centroid")] else [])
    + (if config.requireC6C7Ok then [C6AndC7Ok] else [])
    + (if config.movementMaxM.Some? then [MovementWithin(config.movementMaxM.value)] else [])
    + (if config.requireSingleCandidate then [SingleCandidate] else [])
    + (if config.requireSameSourceMonth then [SameMonth] else [])
  }

  lemma {:induction false} HoldAllIff(clauses: seq<Clause>, f: Feature)
    ensures HoldAll(clauses, f) == True <==> forall c :: c in clauses ==> Holds(c, f) == True
  {
    if clauses != [] {
      assert clauses == [clauses[0]] + clauses[1..];
      HoldAllIff(clauses[1..], f);
    }
  }

  lemma HoldAllAppend(a: seq<Clause>, b: seq<Clause>, f: Feature)
    ensures HoldAll(a + b, f) == True <==> HoldAll(a, f) == True && HoldAll(b, f) == True
  {
    HoldAllIff(a, f);
    HoldAllIff(b, f);
    HoldAllIff(a + b, f);
    assert forall c :: c in a + b <==> c in a || c in b;
  }

  lemma HoldOptional(wanted: bool, c: Clause, f: Feature)
    ensures HoldAll(if wanted then [c] else [], f) == True <==> (wanted ==> Holds(c, f) == True)
  {
    if wanted {
      assert [c][1..] == [];
    }
  }

  /** WHERE keeps a row exactly when every requested condition is TRUE; a NULL in any of them drops it. */
  predicate Selected(config: Config, f: Feature) {
    && f.candidateC4DistM.Some? && f.candidateC4DistM.value <= config.buildingDistanceMaxM
    && (config.currentPtSource == Centroid ==> f.currentPtSource == Some("centroid"))
    && (config.requireC6C7Ok ==> f.candidateC6Ok == True && f.candidateC7Ok == True)
    && (config.movementMaxM.Some? ==> f.movementM.Some? && f.movementM.value <= config.movementMaxM.value)
    && (config.requireSingleCandidate ==> f.candidatesPerBd == 1)
    && (config.requireSameSourceMonth ==> f.textSourceYyyymm.Some? && f.textSourceYyyymm == f.candidateSourceYyyymm)
  }

  lemma PredicateSelects(config: Config, f: Feature)
    ensures HoldAll(Clauses(config), f) == True <==> Selected(config, f)
  {
    var dist := BuildingWithin(config.buildingDistanceMaxM);
    var source := if config.currentPtSource != AnySource then [SourceIs("centroid")] else [];
    var areas := if config.requireC6C7Ok then [C6AndC7Ok] else [];
    var move := if config.movementMaxM.Some? then [MovementWithin(config.movementMaxM.value)] else [];
    var single := if config.requireSingleCandidate then [SingleCandidate] else [];
    var month := if config.requireSameSourceMonth then [SameMonth] else [];
    HoldAllAppend([dist] + source + areas + move + single, month, f);
    HoldAllAppend([dist] + source + areas + move, single, f);
    HoldAllAppend([dist] + source + areas, move, f);
    HoldAllAppend([dist] + source, areas, f);
    HoldAllAppend([dist], source, f);
    HoldOptional(true, dist, f);
    HoldOptional(config.currentPtSource != AnySource, SourceIs("centroid"), f);
    HoldOptional(config.requireC6C7Ok, C6AndC7Ok, f);
    if config.movementMaxM.Some? {
      HoldOptional(true, MovementWithin(config.movementMaxM.value), f);
    }
    HoldOptional(config.requireSingleCandidate, SingleCandidate, f);
    HoldOptional(config.requireSameSourceMonth, SameMonth, f);
  }

  /** The clauses of a configuration select exactly the rows it asks for. */
  method PolicyPredicate(config: Config) returns (clauses: seq<Clause>)
    ensures clauses == Clauses(config)
    ensures forall f :: HoldAll(clauses, f) == True <==> Selected(config, f)
  {
    forall f ensures HoldAll(Clauses(config), f) == True <==> Selected(config, f) { PredicateSelects(config, f); }
    clauses := [BuildingWithin(config.buildingDistanceMaxM)];
    if config.currentPtSource != AnySource {
      clauses := clauses + [SourceIs("centroid")];
    }
    if config.requireC6C7Ok {
      clauses := clauses + [C6AndC7Ok];
    }
    if config.movementMaxM.Some? {
      clauses := clauses + [MovementWithin(config.movementMaxM.value)];
    }
    if config.requireSingleCandidate {
      clauses := clauses + [SingleCandidate];
    }
    if config.requireSameSourceMonth {
      clauses := clauses + [SameMonth];
    }
  }

  // ---- the counts ----

  datatype Measure = Used | FillsC3 | ReplacesC4 | ReplacesC6
    | ReplacesC7 | C4Over500 | C6Error | C7Error | MovementOver100 | MovementOver500

  function Extra(m: Measure, f: Feature): Truth {
    match m
    case Used => True
    case FillsC3 => Not(Lift(f.baselineHasEntrance))
    case ReplacesC4 => f.baselineC4Over500
    case ReplacesC6 => Not(f.baselineC6Ok)
    case ReplacesC7 => Not(f.baselineC7Ok)
    case C4Over500 => f.candidateC4Over500
    case C6Error => Not(f.candidateC6Ok)
    case C7Error => Not(f.candidateC7Ok)
    case MovementOver100 => Above(f.movementM, 100.0)
    case MovementOver500 => Above(f.movementM, 500.0)
  }

  /** `COUNT(*) FILTER (WHERE predicate AND ...)`. */
  function CountFor(clauses: seq<Clause>, m: Measure, fs: seq<Feature>): nat {
    Count((f: Feature) => And(HoldAll(clauses, f), Extra(m, f)) == True, fs)
  }

  /** What each count counts among the selected rows; NULL is never counted. */
  ghost predicate Reports(m: Measure, f: Feature) {
    match m
    case Used => true
    case FillsC3 => !f.baselineHasEntrance
    case ReplacesC4 => f.baselineC4Over500 == True
    case ReplacesC6 => f.baselineC6Ok == False
    case ReplacesC7 => f.baselineC7Ok == False
    case C4Over500 => f.candidateC4Over500 == True
    case C6Error => f.candidateC6Ok == False
    case C7Error => f.candidateC7Ok == False
    case MovementOver100 => f.movementM.Some? && f.movementM.value > 100.0
    case MovementOver500 => f.movementM.Some? && f.movementM.value > 500.0
  }

  lemma CountsAre(config: Config, m: Measure, fs: seq<Feature>)
    ensures CountFor(Clauses(config), m, fs) == Count((f: Feature) => Selected(config, f) && Reports(m, f), fs)
  {
    var p := (f: Feature) => And(HoldAll(Clauses(config), f), Extra(m, f)) == True;
    var q := (f: Feature) => Selected(config, f) && Reports(m, f);
    forall f ensures p(f) == q(f) {
      PredicateSelects(config, f);
    }
    CountMonotone(p, q, fs);
    CountMonotone(q, p, fs);
  }

  datatype Result = Result(status: string, servingPromotionAllowed: bool, hardBlocks: seq<string>,
                           warnings: seq<string>)

  method EvaluatePolicyResult(count: Measure -> nat) returns (r: Result)
    ensures r.status == "repeatable_candidate"
      <==> count(Used) > 0 && count(C4Over500) == 0 && count(C6Error) == 0 &&
           count(C7Error) == 0 && count(MovementOver500) == 0
    ensures r.status == "repeatable_candidate" || r.status == "blocked"
    ensures r.status == "blocked" <==> r.hardBlocks != []
    ensures |r.hardBlocks| == (if count(Used) == 0 then 1 else 0) + (if count(C4Over500) > 0 then 1 else 0)
      + (if count(C6Error) > 0 then 1 else 0) + (if count(C7Error) > 0 then 1 else 0)
      + (if count(MovementOver500) > 0 then 1 else 0)
    ensures r.warnings != [] <==> count(MovementOver100) > 0
    ensures !r.servingPromotionAllowed
  {
    var hardBlocks: seq<string>, warnings: seq<string> := [], [];
    if count(Used) <= 0 {
      hardBlocks := hardBlocks + ["policy selected no candidate rows"];
    }
    if count(C4Over500) > 0 {
      hardBlocks := hardBlocks + ["policy still has C4 over500 rows"];
    }
    if count(C6Error) > 0 {
      hardBlocks := hardBlocks + ["policy still has C6 error rows"];
    }
    if count(C7Error) > 0 {
      hardBlocks := hardBlocks + ["policy still has C7 error rows"];
    }
    if count(MovementOver500) > 0 {
      hardBlocks := hardBlocks + ["policy still has movement over 500m"];
    }
    if count(MovementOver100) > 0 {
      warnings := warnings + ["policy still has movement over 100m"];
    }
    r := Result(if hardBlocks == [] then "repeatable_candidate" else "blocked", false, hardBlocks, warnings);
    assert |"repeatable_candidate"| != |"blocked"|;
  }

  // ---- the policy discharges the gate ----

  /** The limits under which the policy cannot select a row that the gate blocks. */
  predicate Guarded(config: Config) {
    && config.buildingDistanceMaxM <= 500.0
    && config.movementMaxM.Some? && config.movementMaxM.value <= 500.0
    && config.requireC6C7Ok
  }

  predicate BlockingMeasure(m: Measure) { m == C4Over500 || m == C6Error || m == C7Error || m == MovementOver500 }

  ghost predicate AllDerived(fs: seq<Feature>) {
    forall f :: f in fs ==> Derived(f)
  }

  lemma CountIsZeroIff(config: Config, m: Measure, fs: seq<Feature>)
    ensures CountFor(Clauses(config), m, fs) == 0
      <==> forall f :: f in fs && Selected(config, f) ==> Extra(m, f) != True
  {
    CountZero((f: Feature) => And(HoldAll(Clauses(config), f), Extra(m, f)) == True, fs);
    forall f | f in fs ensures HoldAll(Clauses(config), f) == True <==> Selected(config, f) {
      PredicateSelects(config, f);
    }
  }

  /** Under guarded limits all four error counts are zero over every feature table. */
  lemma GuardedPolicyHasNoErrors(config: Config, m: Measure, fs: seq<Feature>)
    requires Guarded(config) && BlockingMeasure(m) && AllDerived(fs)
    ensures CountFor(Clauses(config), m, fs) == 0
  {
    CountIsZeroIff(config, m, fs);
  }

  /** Hence the gate passes exactly when some row is selected. */
  method GuardedGate(config: Config, fs: seq<Feature>) returns (r: Result)
    requires Guarded(config) && AllDerived(fs)
    ensures r.status == "repeatable_candidate" <==> exists f :: f in fs && Selected(config, f)
  {
    var clauses := PolicyPredicate(config);
    GuardedPolicyHasNoErrors(config, C4Over500, fs);
    GuardedPolicyHasNoErrors(config, C6Error, fs);
    GuardedPolicyHasNoErrors(config, C7Error, fs);
    GuardedPolicyHasNoErrors(config, MovementOver500, fs);
    CountIsZeroIff(config, Used, fs);
    r := EvaluatePolicyResult(m => CountFor(clauses, m, fs));
  }

  /** A row that meets every clause of a configuration with room to spare for the measure under attack. */
  function Witness(config: Config): Feature {
    var dist := config.buildingDistanceMaxM;
    var move := if config.movementMaxM.Some? then config.movementMaxM.value else 501.0;
    var ok := if config.requireC6C7Ok then True else False;
    Feature("bd", Some("202604"), Some("202604"), Some("centroid"), 1, true, Some(move), Some(dist), Some(0.0),
            Above(Some(dist), 500.0), False, ok, True, ok, True)
  }

  /** The limits that a configuration may be built with. */
  predicate NonNegativeLimits(config: Config) {
    config.buildingDistanceMaxM >= 0.0 && (config.movementMaxM.Some? ==> config.movementMaxM.value >= 0.0)
  }

  /** ... and distances are not negative. */
  ghost predicate Plausible(f: Feature) {
    && Derived(f)
    && (f.candidateC4DistM.Some? ==> f.candidateC4DistM.value >= 0.0)
    && (f.movementM.Some? ==> f.movementM.value >= 0.0)
  }

  ghost predicate AllPlausible(fs: seq<Feature>) {
    forall f :: f in fs ==> Plausible(f)
  }

  /** The limits are exactly what is needed: outside them some feature table makes an error count positive. */
  lemma GuardedIsExact(config: Config)
    requires NonNegativeLimits(config)
    ensures Guarded(config) <==>
      forall fs, m :: AllPlausible(fs) && BlockingMeasure(m) ==> CountFor(Clauses(config), m, fs) == 0
  {
    if Guarded(config) {
      forall fs, m | AllPlausible(fs) && BlockingMeasure(m) ensures CountFor(Clauses(config), m, fs) == 0 {
        GuardedPolicyHasNoErrors(config, m, fs);
      }
    } else {
      var f := Witness(config);
      var m := if config.buildingDistanceMaxM > 500.0 then C4Over500
        else if !config.requireC6C7Ok then C6Error else MovementOver500;
      CountIsZeroIff(config, m, [f]);
      assert f in [f] && Selected(config, f) && Extra(m, f) == True;
      assert AllPlausible([f]) && BlockingMeasure(m);
    }
  }

  /** Every further conjunct can only lower a count, whatever the table and the measure. */
  lemma MoreClausesNeverCountMore(clauses: seq<Clause>, more: seq<Clause>, m: Measure, fs: seq<Feature>)
    requires forall c :: c in clauses ==> c in more
    ensures CountFor(more, m, fs) <= CountFor(clauses, m, fs)
  {
    var p := (f: Feature) => And(HoldAll(more, f), Extra(m, f)) == True;
    var q := (f: Feature) => And(HoldAll(clauses, f), Extra(m, f)) == True;
    forall f | f in fs && p(f) ensures q(f) {
      HoldAllIff(more, f);
      HoldAllIff(clauses, f);
    }
    CountMonotone(p, q, fs);
  }
}
