/**
 * The in-process Prometheus metrics of the admin UI: counters and histograms keyed by label values, updated in place,
 * and the route normalisation that bounds their number.
 */
module Metrics {
  import opened Sequences
  import opened Text

  /** The values of a metric's label names, in order; as the names are fixed, equal JSON keys are equal values. */
  type Key = seq<string>

  function Normalized(labelNames: seq<string>, labels: map<string, string>): Key {
    seq(|labelNames|, i requires 0 <= i < |labelNames| =>
      if labelNames[i] in labels then labels[labelNames[i]] else "unknown")
  }

  // ---- counters and histograms ----

  function Incremented(samples: map<Key, int>, key: Key, amount: int): map<Key, int> {
    samples[key := (if key in samples then samples[key] else 0) + amount]
  }

  datatype Sample = Sample(buckets: seq<nat>, count: nat, sum: real)

  function Bumped(buckets: seq<nat>, bounds: seq<real>, value: real): (r: seq<nat>)
    requires |buckets| == |bounds|
    ensures |r| == |bounds|
  {
    seq(|bounds|, i requires 0 <= i < |bounds| => buckets[i] + if value <= bounds[i] then 1 else 0)
  }

  function Empty(bounds: seq<real>): Sample { Sample(seq(|bounds|, _ => 0), 0, 0.0) }

  ghost predicate Shaped(samples: map<Key, Sample>, bounds: seq<real>) {
    forall key :: key in samples ==> |samples[key].buckets| == |bounds|
  }

  function Observed(samples: map<Key, Sample>, bounds: seq<real>, key: Key, value: real): map<Key, Sample>
    requires Shaped(samples, bounds)
  {
    var s := if key in samples then samples[key] else Empty(bounds);
    samples[key := Sample(Bumped(s.buckets, bounds, value), s.count + 1, s.sum + value)]
  }

  class CounterMetric {
    const labelNames: seq<string>
    var samples: map<Key, int>

    constructor (labelNames: seq<string>)
      ensures this.labelNames == labelNames && samples == map[]
    {
      this.labelNames, samples := labelNames, map[];
    }

    method Inc(labels: map<string, string>, amount: int)
      modifies this
      ensures samples == Incremented(old(samples), Normalized(labelNames, labels), amount)
    {
      var key := Normalized(labelNames, labels);
      if key !in samples {
        samples := samples[key := 0];
      }
      samples := samples[key := samples[key] + amount];
    }
  }

  class HistogramMetric {
    const labelNames: seq<string>
    const bounds: seq<real>
    var samples: map<Key, Sample>

    constructor (labelNames: seq<string>, bounds: seq<real>)
      ensures this.labelNames == labelNames && this.bounds == bounds && samples == map[]
    {
      this.labelNames, this.bounds, samples := labelNames, bounds, map[];
    }

    method Observe(labels: map<string, string>, value: real)
      requires Shaped(samples, bounds)
      modifies this
      ensures samples == Observed(old(samples), bounds, Normalized(labelNames, labels), value)
      ensures Shaped(samples, bounds)
    {
      var key := Normalized(labelNames, labels);
      var sample := if key in samples then samples[key] else Empty(bounds);
      var buckets := sample.buckets;
      for i := 0 to |bounds|
        invariant |buckets| == |bounds|
        invariant forall k :: 0 <= k < |bounds| ==>
          buckets[k] == sample.buckets[k] + if k < i && value <= bounds[k] then 1 else 0
      {
        if value <= bounds[i] {
          buckets := buckets[i := buckets[i] + 1];
        }
      }
      assert buckets == Bumped(sample.buckets, bounds, value);
      samples := samples[key := Sample(buckets, sample.count + 1, sample.sum + value)];
    }
  }

  // ---- what a histogram holds after any run of observations ----

  datatype Observation = Observation(key: Key, value: real)

  function Histogram(bounds: seq<real>, log: seq<Observation>): (samples: map<Key, Sample>)
    ensures Shaped(samples, bounds)
  {
    if log == [] then map[]
    else Observed(Histogram(bounds, log[..|log| - 1]), bounds, log[|log| - 1].key, log[|log| - 1].value)
  }

  predicate Within(o: Observation, key: Key, bound: real) { o.key == key && o.value <= bound }

  predicate Of(o: Observation, key: Key) { o.key == key }

  lemma CountSnoc<T>(p: T -> bool, s: seq<T>, x: T)
    ensures Count(p, s + [x]) == Count(p, s) + if p(x) then 1 else 0
  {
    CountAppend(p, s, [x]);
    assert [x][1..] == [];
  }

  /** Every bucket counts the observations of its series up to its bound, and `count` counts all of them. */
  lemma {:induction false} BucketsCountObservations(bounds: seq<real>, log: seq<Observation>, key: Key, i: nat)
    requires i < |bounds|
    ensures var samples := Histogram(bounds, log);
      && (key in samples <==> Count((o: Observation) => Of(o, key), log) > 0)
      && (key in samples ==>
            && samples[key].count == Count((o: Observation) => Of(o, key), log)
            && samples[key].buckets[i] == Count((o: Observation) => Within(o, key, bounds[i]), log))
  {
    var of := (o: Observation) => Of(o, key);
    var within := (o: Observation) => Within(o, key, bounds[i]);
    if log != [] {
      var before, last := log[..|log| - 1], log[|log| - 1];
      assert log == before + [last];
      BucketsCountObservations(bounds, before, key, i);
      CountSnoc(of, before, last);
      CountSnoc(within, before, last);
      CountMonotone(within, of, before);
    }
  }

  /** Along ascending bounds the buckets never fall, and none exceeds the count. */
  lemma BucketsAreCumulative(bounds: seq<real>, log: seq<Observation>, key: Key, i: nat, j: nat)
    requires i <= j < |bounds| && bounds[i] <= bounds[j]
    requires key in Histogram(bounds, log)
    ensures var s := Histogram(bounds, log)[key]; s.buckets[i] <= s.buckets[j] <= s.count
  {
    BucketsCountObservations(bounds, log, key, i);
    BucketsCountObservations(bounds, log, key, j);
    CountMonotone((o: Observation) => Within(o, key, bounds[i]), (o: Observation) => Within(o, key, bounds[j]), log);
    CountMonotone((o: Observation) => Within(o, key, bounds[j]), (o: Observation) => Of(o, key), log);
  }

  function SumOf(log: seq<Observation>, key: Key): real {
    if log == [] then 0.0
    else SumOf(log[..|log| - 1], key) + if log[|log| - 1].key == key then log[|log| - 1].value else 0.0
  }

  /** The sum of a series is the sum of its observations. */
  lemma {:induction false} SumsAddUp(bounds: seq<real>, log: seq<Observation>, key: Key)
    ensures var samples := Histogram(bounds, log);
      if key in samples then samples[key].sum == SumOf(log, key) else SumOf(log, key) == 0.0
  {
    if log != [] {
      SumsAddUp(bounds, log[..|log| - 1], key);
    }
  }

  /** A label that is given is kept, one that is not is unknown, and others are dropped. */
  lemma LabelsAreNormalized(labelNames: seq<string>, labels: map<string, string>, i: nat)
    requires i < |labelNames|
    ensures |Normalized(labelNames, labels)| == |labelNames|
    ensures labelNames[i] in labels ==> Normalized(labelNames, labels)[i] == labels[labelNames[i]]
    ensures labelNames[i] !in labels ==> Normalized(labelNames, labels)[i] == "unknown"
  {
  }

  // ---- request metrics: a counter and a histogram that move together ----

  const REQUEST_LABELS := ["method", "route", "status_code"]

  const REQUEST_DURATION_BUCKETS: seq<real> := [0.005, 0.01, 0.025, 0.05, 0.1, 0.25, 0.5, 1.0, 2.5, 5.0, 10.0]

  const METRIC_HTTP_METHODS: set<string> := {"GET", "POST", "PUT", "PATCH", "DELETE", "HEAD", "OPTIONS"}

  datatype Request = Request(method_: string, route: string, statusCode: string, elapsedSeconds: real)

  /** `upper` is the host's `toUpperCase`. */
  function NormalizeMetricMethod(m: string, upper: string -> string): string {
    if upper(m) in METRIC_HTTP_METHODS then upper(m) else "other"
  }

  /** The seven methods are kept in upper case, every other one is `other`. */
  lemma MethodsAreBounded(m: string, upper: string -> string)
    ensures upper(m) in {"GET", "POST", "PUT", "PATCH", "DELETE", "HEAD", "OPTIONS"} ==>
      NormalizeMetricMethod(m, upper) == upper(m)
    ensures upper(m) !in {"GET", "POST", "PUT", "PATCH", "DELETE", "HEAD", "OPTIONS"} ==>
      NormalizeMetricMethod(m, upper) == "other"
  {
  }

  function RequestKey(r: Request, upper: string -> string): Key {
    [NormalizeMetricMethod(r.method_, upper), NormalizeMetricRoute(r.route), r.statusCode]
  }

  method RecordUiRequest(uiRequests: CounterMetric, uiRequestDuration: HistogramMetric, r: Request,
                         upper: string -> string)
    requires uiRequests.labelNames == REQUEST_LABELS && uiRequestDuration.labelNames == REQUEST_LABELS
    requires Shaped(uiRequestDuration.samples, uiRequestDuration.bounds)
    modifies uiRequests, uiRequestDuration
    ensures uiRequests.samples == Incremented(old(uiRequests.samples), RequestKey(r, upper), 1)
    ensures uiRequestDuration.samples
         == Observed(old(uiRequestDuration.samples), uiRequestDuration.bounds, RequestKey(r, upper), r.elapsedSeconds)
    ensures Shaped(uiRequestDuration.samples, uiRequestDuration.bounds)
  {
    var labels := map[
      "method" := NormalizeMetricMethod(r.method_, upper),
      "route" := NormalizeMetricRoute(r.route),
      "status_code" := r.statusCode];
    assert |"method"| != |"route"| && |"route"| != |"status_code"| && |"method"| != |"status_code"|;
    assert Normalized(REQUEST_LABELS, labels) == RequestKey(r, upper);
    uiRequests.Inc(labels, 1);
    uiRequestDuration.Observe(labels, r.elapsedSeconds);
  }

  /** The counter and the histogram after a run of recorded requests. */
  function Recorded(bounds: seq<real>, log: seq<Observation>): (map<Key, int>, map<Key, Sample>) {
    if log == [] then (map[], map[])
    else
      var before, last := Recorded(bounds, log[..|log| - 1]), log[|log| - 1];
      (Incremented(before.0, last.key, 1), Histogram(bounds, log))
  }

  function RequestLog(rs: seq<Request>, upper: string -> string): seq<Observation> {
    seq(|rs|, i requires 0 <= i < |rs| => Observation(RequestKey(rs[i], upper), rs[i].elapsedSeconds))
  }

  /** Calls of `recordUiRequest` one after the other on fresh metrics. */
  method RecordUiRequests(rs: seq<Request>, upper: string -> string)
    returns (uiRequests: CounterMetric, uiRequestDuration: HistogramMetric)
    ensures (uiRequests.samples, uiRequestDuration.samples) == Recorded(REQUEST_DURATION_BUCKETS, RequestLog(rs, upper))
  {
    uiRequests := new CounterMetric(REQUEST_LABELS);
    uiRequestDuration := new HistogramMetric(REQUEST_LABELS, REQUEST_DURATION_BUCKETS);
    for i := 0 to |rs|
      invariant fresh(uiRequests) && fresh(uiRequestDuration)
      invariant uiRequests.labelNames == REQUEST_LABELS && uiRequestDuration.labelNames == REQUEST_LABELS
      invariant uiRequestDuration.bounds == REQUEST_DURATION_BUCKETS
      invariant (uiRequests.samples, uiRequestDuration.samples) ==
        Recorded(REQUEST_DURATION_BUCKETS, RequestLog(rs[..i], upper))
      invariant uiRequestDuration.samples == Histogram(REQUEST_DURATION_BUCKETS, RequestLog(rs[..i], upper))
    {
      var log := RequestLog(rs[..i + 1], upper);
      assert log[..|log| - 1] == RequestLog(rs[..i], upper);
      RecordUiRequest(uiRequests, uiRequestDuration, rs[i], upper);
    }
    assert rs[..|rs|] == rs;
  }

  /** After every run the counter and the histogram know the same series and agree on each. */
  lemma {:induction false} CounterAgreesWithHistogram(bounds: seq<real>, log: seq<Observation>)
    ensures var (counter, histogram) := Recorded(bounds, log);
      && counter.Keys == histogram.Keys
      && forall key :: key in counter ==> counter[key] == histogram[key].count
  {
    if log != [] {
      CounterAgreesWithHistogram(bounds, log[..|log| - 1]);
    }
  }

  /** The counter of a series counts its calls. */
  lemma {:induction false} CounterCountsCalls(bounds: seq<real>, log: seq<Observation>, key: Key)
    ensures var counter, calls := Recorded(bounds, log).0, Count((o: Observation) => Of(o, key), log);
      (key in counter <==> calls > 0) && (key in counter ==> counter[key] == calls)
  {
    if log != [] {
      var before, last := log[..|log| - 1], log[|log| - 1];
      assert log == before + [last];
      CounterCountsCalls(bounds, before, key);
      CountSnoc((o: Observation) => Of(o, key), before, last);
    }
  }

  function CounterTotal(keys: seq<Key>, samples: map<Key, int>): int
    requires forall key :: key in keys ==> key in samples
  {
    if keys == [] then 0 else samples[keys[0]] + CounterTotal(keys[1..], samples)
  }

  function HistogramTotal(keys: seq<Key>, samples: map<Key, Sample>): nat
    requires forall key :: key in keys ==> key in samples
  {
    if keys == [] then 0 else samples[keys[0]].count + HistogramTotal(keys[1..], samples)
  }

  function SumCounts(keys: seq<Key>, log: seq<Observation>): nat {
    if keys == [] then 0 else Count((o: Observation) => Of(o, keys[0]), log) + SumCounts(keys[1..], log)
  }

  lemma {:induction false} TotalsAreCounts(keys: seq<Key>, bounds: seq<real>, log: seq<Observation>)
    requires forall key :: key in keys ==> key in Recorded(bounds, log).0
    ensures Recorded(bounds, log).0.Keys == Recorded(bounds, log).1.Keys
    ensures CounterTotal(keys, Recorded(bounds, log).0) == SumCounts(keys, log)
    ensures HistogramTotal(keys, Recorded(bounds, log).1) == SumCounts(keys, log)
  {
    CounterAgreesWithHistogram(bounds, log);
    if keys != [] {
      CounterCountsCalls(bounds, log, keys[0]);
      TotalsAreCounts(keys[1..], bounds, log);
    }
  }

  lemma {:induction false} SumCountsSnoc(keys: seq<Key>, log: seq<Observation>, o: Observation)
    requires Distinct(keys)
    ensures SumCounts(keys, log + [o]) == SumCounts(keys, log) + if o.key in keys then 1 else 0
  {
    if keys != [] {
      assert keys == [keys[0]] + keys[1..];
      assert keys[0] !in keys[1..];
      CountSnoc((x: Observation) => Of(x, keys[0]), log, o);
      SumCountsSnoc(keys[1..], log, o);
    }
  }

  lemma {:induction false} SumCountsEmpty(keys: seq<Key>)
    ensures SumCounts(keys, []) == 0
  {
    if keys != [] { SumCountsEmpty(keys[1..]); }
  }

  lemma {:induction false} SumCountsIsLength(keys: seq<Key>, log: seq<Observation>)
    requires Distinct(keys) && forall o :: o in log ==> o.key in keys
    ensures SumCounts(keys, log) == |log|
  {
    if log == [] {
      SumCountsEmpty(keys);
    } else {
      var before, last := log[..|log| - 1], log[|log| - 1];
      assert log == before + [last];
      SumCountsIsLength(keys, before);
      SumCountsSnoc(keys, before, last);
    }
  }

  /** Over all series of either metric, listed without repetition, the samples add up to the number of calls. */
  lemma TotalsAreTheNumberOfCalls(keys: seq<Key>, bounds: seq<real>, log: seq<Observation>)
    requires Distinct(keys) && forall key :: key in keys <==> key in Recorded(bounds, log).0
    ensures Recorded(bounds, log).0.Keys == Recorded(bounds, log).1.Keys
    ensures CounterTotal(keys, Recorded(bounds, log).0) == HistogramTotal(keys, Recorded(bounds, log).1) == |log|
  {
    TotalsAreCounts(keys, bounds, log);
    forall o | o in log ensures o.key in keys {
      CounterCountsCalls(bounds, log, o.key);
      CountZero((x: Observation) => Of(x, o.key), log);
      assert Of(o, o.key);
    }
    SumCountsIsLength(keys, log);
  }

  // ---- routes ----

  predicate IsHex(c: char) { '0' <= c <= '9' || 'a' <= c <= 'f' || 'A' <= c <= 'F' }

  predicate IsTokenChar(c: char) { '0' <= c <= '9' || 'a' <= c <= 'z' || 'A' <= c <= 'Z' || c == '_' || c == '-' }

  /** Eight hexadecimal digits, a hyphen, and at least 27 hexadecimal digits or hyphens. */
  predicate LooksLikeUuid(s: string) {
    && |s| >= 36
    && (forall i :: 0 <= i < 8 ==> IsHex(s[i]))
    && s[8] == '-'
    && (forall i :: 9 <= i < |s| ==> IsHex(s[i]) || s[i] == '-')
  }

  predicate LooksLikeNumber(s: string) { s != "" && forall i :: 0 <= i < |s| ==> IsDigit(s[i]) }

  predicate LooksLikeToken(s: string) { |s| > 32 && forall i :: 0 <= i < |s| ==> IsTokenChar(s[i]) }

  function NormalizeMetricSegment(s: string): string {
    if LooksLikeUuid(s) || LooksLikeNumber(s) || LooksLikeToken(s) then ":id" else s
  }

  function NonEmpty(parts: seq<string>): (r: seq<string>)
    ensures forall part :: part in r <==> part in parts && part != ""
  {
    if parts == [] then []
    else
      var rest := NonEmpty(parts[1..]);
      assert parts == [parts[0]] + parts[1..];
      if parts[0] == "" then rest else [parts[0]] + rest
  }

  function Segments(path: string): seq<string> { NonEmpty(Split(path, '/')) }

  function NormalizedSegments(parts: seq<string>): seq<string> {
    seq(|parts|, i requires 0 <= i < |parts| => NormalizeMetricSegment(parts[i]))
  }

  function NormalizeMetricRoute(path: string): string {
    var joined := Join(NormalizedSegments(Segments(path)), "/");
    "/" + if joined == "" then "root" else joined
  }

  /** The rule for identifiers is the one for long tokens: 36 and more characters of an identifier are more than 32 of a
      token. */
  lemma IdentifiersAreLongTokens(s: string)
    requires LooksLikeUuid(s)
    ensures LooksLikeToken(s)
  {
    forall i | 0 <= i < |s| ensures IsTokenChar(s[i]) {
      assert i < 8 || i == 8 || 9 <= i;
    }
  }

  /** Which segments are replaced: numbers, and tokens of more than 32 letters, digits, underscores and hyphens. */
  lemma SegmentsReplaced(s: string)
    ensures s != "" && (forall i :: 0 <= i < |s| ==> '0' <= s[i] <= '9') ==> NormalizeMetricSegment(s) == ":id"
    ensures |s| > 32 && (forall i :: 0 <= i < |s| ==>
        '0' <= s[i] <= '9' || 'a' <= s[i] <= 'z' || 'A' <= s[i] <= 'Z' || s[i] == '_' || s[i] == '-') ==>
      NormalizeMetricSegment(s) == ":id"
    ensures NormalizeMetricSegment(s) == s
      || (s != "" && forall i :: 0 <= i < |s| ==> '0' <= s[i] <= '9')
      || (|s| > 32 && forall i :: 0 <= i < |s| ==>
            '0' <= s[i] <= '9' || 'a' <= s[i] <= 'z' || 'A' <= s[i] <= 'Z' || s[i] == '_' || s[i] == '-')
  {
    if LooksLikeUuid(s) {
      IdentifiersAreLongTokens(s);
    }
  }

  lemma NormalizedOnce(s: string)
    ensures NormalizeMetricSegment(NormalizeMetricSegment(s)) == NormalizeMetricSegment(s)
    ensures s != "" ==> NormalizeMetricSegment(s) != ""
    ensures '/' !in s ==> '/' !in NormalizeMetricSegment(s)
  {
    assert ":id"[0] == ':' && |":id"| == 3;
  }

  ghost predicate Clean(parts: seq<string>) {
    forall part :: part in parts ==> part != "" && '/' !in part
  }

  lemma {:induction false} NonEmptyKeeps(parts: seq<string>)
    requires Clean(parts)
    ensures NonEmpty(parts) == parts
  {
    if parts != [] {
      assert parts == [parts[0]] + parts[1..];
      assert parts[0] in parts && forall part :: part in parts[1..] ==> part in parts;
      NonEmptyKeeps(parts[1..]);
    }
  }

  /** A route printed from clean segments splits into them again. */
  lemma SegmentsOfRoute(parts: seq<string>)
    requires parts != [] && Clean(parts)
    ensures Segments("/" + Join(parts, "/")) == parts
  {
    var joined := Join(parts, "/");
    assert "/" + joined == "" + ['/'] + joined;
    SplitAtFirst("", '/', joined);
    SplitJoin(parts, '/');
    assert ([""] + parts)[1..] == parts;
    NonEmptyKeeps(parts);
  }

  lemma JoinOfClean(parts: seq<string>)
    requires parts != [] && Clean(parts)
    ensures Join(parts, "/") != ""
  {
    assert parts[0] in parts;
  }

  lemma SegmentsAreClean(path: string)
    ensures Clean(NormalizedSegments(Segments(path)))
  {
    var parts := Segments(path);
    forall part | part in NormalizedSegments(parts) ensures part != "" && '/' !in part {
      var i :| 0 <= i < |parts| && part == NormalizeMetricSegment(parts[i]);
      assert parts[i] in parts;
      NormalizedOnce(parts[i]);
    }
  }

  /** Normalising a route twice changes nothing. */
  lemma RouteNormalizationIsIdempotent(path: string)
    ensures NormalizeMetricRoute(NormalizeMetricRoute(path)) == NormalizeMetricRoute(path)
  {
    var parts := NormalizedSegments(Segments(path));
    SegmentsAreClean(path);
    if parts == [] {
      var root := ["root"];
      assert Join(root, "/") == "root";
      assert "root"[0] == 'r' && "root"[1] == 'o';
      SegmentsOfRoute(root);
      assert NormalizedSegments(root) == root;
    } else {
      JoinOfClean(parts);
      SegmentsOfRoute(parts);
      forall i | 0 <= i < |parts| ensures NormalizeMetricSegment(parts[i]) == parts[i] {
        NormalizedOnce(Segments(path)[i]);
      }
      assert NormalizedSegments(parts) == parts;
    }
  }

  // ---- web vitals: a bounded number of series ----

  const WEB_VITAL_NAMES: set<string> := {"CLS", "FCP", "FID", "INP", "LCP", "TTFB"}

  const WEB_VITAL_RATINGS: set<string> := {"good", "needs-improvement", "poor"}

  const ADMIN_ROUTES: set<string> := {
    "/admin", "/admin/backups", "/admin/cache", "/admin/consistency", "/admin/dagster", "/admin/files", "/admin/load",
    "/admin/logs", "/admin/ops", "/admin/settings", "/admin/source-files", "/admin/tables"
  }
  const DEBUG_ROUTES: set<string> := {"/debug/explain", "/debug/geocode", "/debug/normalize", "/debug/reverse"}
  const WEB_VITAL_STATIC_ROUTES: set<string> := ADMIN_ROUTES + DEBUG_ROUTES

  function NormalizeWebVitalRoute(path: string): string {
    var normalized := NormalizeMetricRoute(path);
    if normalized in WEB_VITAL_STATIC_ROUTES then normalized
    else
      var parts := Segments(normalized);
      if |parts| == 3 && parts[0] == "admin" && parts[1] == "consistency" then "/admin/consistency/:id" else "/other"
  }

  /** `finite` tells a number from NaN and the infinities. */
  datatype Vital = Vital(name: string, route: string, rating: string, finite: bool, value: real)

  predicate Recordable(v: Vital) { v.finite && v.value >= 0.0 }

  function VitalKey(v: Vital): Key {
    [if v.name in WEB_VITAL_NAMES then v.name else "other",
     NormalizeWebVitalRoute(v.route),
     if v.rating in WEB_VITAL_RATINGS then v.rating else "unknown"]
  }

  const VITAL_LABELS := ["name", "route", "rating"]

  method RecordWebVital(webVitalsTotal: CounterMetric, webVitals: HistogramMetric, v: Vital) returns (recorded: bool)
    requires webVitalsTotal.labelNames == VITAL_LABELS && webVitals.labelNames == VITAL_LABELS
    requires Shaped(webVitals.samples, webVitals.bounds)
    modifies webVitalsTotal, webVitals
    ensures recorded == Recordable(v)
    ensures webVitalsTotal.samples
         == if recorded then Incremented(old(webVitalsTotal.samples), VitalKey(v), 1) else old(webVitalsTotal.samples)
    ensures webVitals.samples
         == if recorded then Observed(old(webVitals.samples), webVitals.bounds, VitalKey(v), v.value)
            else old(webVitals.samples)
    ensures Shaped(webVitals.samples, webVitals.bounds)
  {
    if !v.finite || v.value < 0.0 {
      return false;
    }
    var key := VitalKey(v);
    var labels := map["name" := key[0], "route" := key[1], "rating" := key[2]];
    assert "name"[0] != "route"[0] && "name"[0] != "rating"[0] && "route"[1] != "rating"[1];
    assert Normalized(VITAL_LABELS, labels) == key;
    webVitalsTotal.Inc(labels, 1);
    webVitals.Observe(labels, v.value);
    return true;
  }

  function VitalsLog(vitals: seq<Vital>): seq<Observation> {
    if vitals == [] then []
    else
      var v := vitals[|vitals| - 1];
      VitalsLog(vitals[..|vitals| - 1]) + if Recordable(v) then [Observation(VitalKey(v), v.value)] else []
  }

  const ALL_NAMES: set<string> := WEB_VITAL_NAMES + {"other"}
  const NAMELESS_ROUTES: set<string> := {"/admin/consistency/:id", "/other"}
  const ALL_ROUTES: set<string> := WEB_VITAL_STATIC_ROUTES + NAMELESS_ROUTES
  const ALL_RATINGS: set<string> := WEB_VITAL_RATINGS + {"unknown"}

  ghost function Prefixed(head: set<string>, tails: set<Key>): set<Key> {
    set h, t | h in head && t in tails :: [h] + t
  }

  lemma {:induction false} ProductSize(head: set<string>, tails: set<Key>)
    ensures |Prefixed(head, tails)| <= |head| * |tails|
    decreases head
  {
    if head == {} {
      assert Prefixed(head, tails) == {};
    } else {
      var h :| h in head;
      var rest := head - {h};
      ProductSize(rest, tails);
      var own := Prefixed({h}, tails);
      assert Prefixed(head, tails) == own + Prefixed(rest, tails);
      OneHead(h, tails);
      assert |head| == |rest| + 1;
      assert (|rest| + 1) * |tails| == |rest| * |tails| + |tails|;
    }
  }

  lemma {:induction false} OneHead(h: string, tails: set<Key>)
    ensures |Prefixed({h}, tails)| <= |tails|
    decreases tails
  {
    if tails == {} {
      assert Prefixed({h}, tails) == {};
    } else {
      var t :| t in tails;
      OneHead(h, tails - {t});
      forall x | x in Prefixed({h}, tails) ensures x in Prefixed({h}, tails - {t}) + {[h] + t} {
        var t' :| t' in tails && x == [h] + t';
        assert t' == t || t' in tails - {t};
      }
      assert Prefixed({h}, tails) <= Prefixed({h}, tails - {t}) + {[h] + t};
      SubsetSize(Prefixed({h}, tails), Prefixed({h}, tails - {t}) + {[h] + t});
    }
  }

  lemma {:induction false} SubsetSize<T>(a: set<T>, b: set<T>)
    requires a <= b
    ensures |a| <= |b|
    decreases a
  {
    if a != {} {
      var x :| x in a;
      SubsetSize(a - {x}, b - {x});
    }
  }

  ghost function AllVitalKeys(): set<Key> {
    Prefixed(ALL_NAMES, Prefixed(ALL_ROUTES, Prefixed(ALL_RATINGS, {[]})))
  }

  lemma ProductBound(a: nat, b: nat, c: nat, d: nat)
    requires a <= 7 && b <= 18 && c <= 4 && d <= b * c
    ensures a * d <= 7 * 18 * 4
  {
    assert b * c <= 18 * c;
    assert a * d <= 7 * d;
  }

  lemma ThreeLabels(a: set<string>, b: set<string>, c: set<string>)
    requires |a| <= 7 && |b| <= 18 && |c| <= 4
    ensures |Prefixed(a, Prefixed(b, Prefixed(c, {[]})))| <= 7 * 18 * 4
  {
    var ratings := Prefixed(c, {[]});
    ProductSize(c, {[]});
    ProductSize(b, ratings);
    ProductSize(a, Prefixed(b, ratings));
    ProductBound(|a|, |b|, |ratings|, |Prefixed(b, ratings)|);
  }

  lemma AllVitalKeysSize()
    ensures |AllVitalKeys()| <= 7 * 18 * 4
  {
    SetSizes();
    ThreeLabels(ALL_NAMES, ALL_ROUTES, ALL_RATINGS);
  }

  lemma AdminRoutes()
    ensures |ADMIN_ROUTES| <= 12
  {
  }

  lemma OtherRoutes()
    ensures |DEBUG_ROUTES| <= 4 && |NAMELESS_ROUTES| <= 2
  {
  }

  lemma NamesAndRatings()
    ensures |ALL_NAMES| <= 7 && |ALL_RATINGS| <= 4
  {
  }

  lemma UnionSize(a: set<string>, b: set<string>, c: set<string>)
    ensures |a + b + c| <= |a| + |b| + |c|
  {
  }

  lemma SetSizes()
    ensures |ALL_NAMES| <= 7 && |ALL_ROUTES| <= 18 && |ALL_RATINGS| <= 4
  {
    AdminRoutes();
    OtherRoutes();
    NamesAndRatings();
    UnionSize(ADMIN_ROUTES, DEBUG_ROUTES, NAMELESS_ROUTES);
  }

  /** Known names, routes and ratings are kept; everything else is one of three. */
  lemma VitalKeyKeepsTheKnown(v: Vital)
    ensures v.name in {"CLS", "FCP", "FID", "INP", "LCP", "TTFB"} ==> VitalKey(v)[0] == v.name
    ensures v.name !in {"CLS", "FCP", "FID", "INP", "LCP", "TTFB"} ==> VitalKey(v)[0] == "other"
    ensures VitalKey(v)[1] == NormalizeWebVitalRoute(v.route)
    ensures v.rating in {"good", "needs-improvement", "poor"} ==> VitalKey(v)[2] == v.rating
    ensures v.rating !in {"good", "needs-improvement", "poor"} ==> VitalKey(v)[2] == "unknown"
  {
  }

  /** The sixteen pages are kept under their normalised path, the page of a consistency case loses its id, and every
      other path is `/other`. */
  lemma PagesAreKept(path: string)
    ensures var page, r := NormalizeMetricRoute(path), NormalizeWebVitalRoute(path);
      && (IsPage(page) ==> r == page)
      && (!IsPage(page) ==>
            r == if IsConsistencyCase(Segments(page)) then "/admin/consistency/:id" else "/other")
  {
    PagesAreTheStaticRoutes(NormalizeMetricRoute(path));
  }

  predicate IsConsistencyCase(parts: seq<string>) {
    |parts| == 3 && parts[0] == "admin" && parts[1] == "consistency"
  }

  lemma PagesAreTheStaticRoutes(page: string)
    ensures IsPage(page) <==> page in WEB_VITAL_STATIC_ROUTES
  {
  }

  predicate IsPage(page: string) {
    || page == "/admin" || page == "/admin/backups" || page == "/admin/cache" || page == "/admin/consistency"
    || page == "/admin/dagster" || page == "/admin/files" || page == "/admin/load" || page == "/admin/logs"
    || page == "/admin/ops" || page == "/admin/settings" || page == "/admin/source-files" || page == "/admin/tables"
    || page == "/debug/explain" || page == "/debug/geocode" || page == "/debug/normalize" || page == "/debug/reverse"
  }

  lemma VitalKeyIsKnown(v: Vital)
    ensures VitalKey(v) in AllVitalKeys()
  {
    var key := VitalKey(v);
    var none: Key := [];
    var last: Key := [key[2]] + none;
    assert last in Prefixed(ALL_RATINGS, {none});
    var two: Key := [key[1]] + last;
    assert two in Prefixed(ALL_ROUTES, Prefixed(ALL_RATINGS, {none}));
    assert [key[0]] + two in AllVitalKeys();
    assert key == [key[0]] + two;
  }

  lemma {:induction false} VitalKeysAreKnown(vitals: seq<Vital>, bounds: seq<real>)
    ensures Histogram(bounds, VitalsLog(vitals)).Keys <= AllVitalKeys()
  {
    if vitals != [] {
      var n := |vitals| - 1;
      VitalKeysAreKnown(vitals[..n], bounds);
      VitalKeyIsKnown(vitals[n]);
      var log := VitalsLog(vitals);
      if Recordable(vitals[n]) {
        assert log[..|log| - 1] == VitalsLog(vitals[..n]);
      } else {
        assert log == VitalsLog(vitals[..n]);
      }
    }
  }

  /** Whatever names, routes and ratings browsers report, neither web-vital metric ever holds more than 7 * 18 * 4
      series, and the two hold the same ones. */
  lemma WebVitalSeriesAreBounded(vitals: seq<Vital>, bounds: seq<real>)
    ensures var (counter, histogram) := Recorded(bounds, VitalsLog(vitals));
      |histogram| <= 7 * 18 * 4 && |counter| <= 7 * 18 * 4 && counter.Keys == histogram.Keys
  {
    var log := VitalsLog(vitals);
    var (counter, histogram) := Recorded(bounds, log);
    VitalKeysAreKnown(vitals, bounds);
    CounterAgreesWithHistogram(bounds, log);
    RecordedHistogram(bounds, log);
    SubsetSize(histogram.Keys, AllVitalKeys());
    AllVitalKeysSize();
    assert |histogram| == |histogram.Keys| && |counter| == |counter.Keys|;
  }

  lemma RecordedHistogram(bounds: seq<real>, log: seq<Observation>)
    ensures Recorded(bounds, log).1 == Histogram(bounds, log)
  {
  }

  lemma VitalsLogSnoc(vitals: seq<Vital>, n: nat)
    requires n < |vitals|
    ensures VitalsLog(vitals[..n + 1])
         == VitalsLog(vitals[..n])
            + if Recordable(vitals[n]) then [Observation(VitalKey(vitals[n]), vitals[n].value)] else []
  {
    assert vitals[..n + 1][..n] == vitals[..n];
  }

  lemma RecordedSnoc(bounds: seq<real>, log: seq<Observation>, o: Observation)
    ensures var (counter, histogram) := Recorded(bounds, log);
      Recorded(bounds, log + [o]) == (Incremented(counter, o.key, 1), Observed(histogram, bounds, o.key, o.value))
  {
    assert (log + [o])[..|log|] == log;
    RecordedHistogram(bounds, log);
  }

  /** What one call of `recordWebVital` does to the metrics of a run. */
  lemma VitalsStep(bounds: seq<real>, vitals: seq<Vital>, n: nat)
    requires n < |vitals|
    ensures var (counter, histogram) := Recorded(bounds, VitalsLog(vitals[..n]));
      var v := vitals[n];
      && Shaped(histogram, bounds)
      && Recorded(bounds, VitalsLog(vitals[..n + 1]))
         == if Recordable(v)
            then (Incremented(counter, VitalKey(v), 1), Observed(histogram, bounds, VitalKey(v), v.value))
            else (counter, histogram)
  {
    var log, v := VitalsLog(vitals[..n]), vitals[n];
    RecordedHistogram(bounds, log);
    VitalsLogSnoc(vitals, n);
    if Recordable(v) {
      RecordedSnoc(bounds, log, Observation(VitalKey(v), v.value));
    } else {
      assert log + [] == log;
    }
  }

  /** Calls of `recordWebVital` one after the other on fresh metrics. */
  method RecordWebVitals(vitals: seq<Vital>, bounds: seq<real>)
    returns (webVitalsTotal: CounterMetric, webVitals: HistogramMetric)
    ensures (webVitalsTotal.samples, webVitals.samples) == Recorded(bounds, VitalsLog(vitals))
    ensures |webVitalsTotal.samples| <= 7 * 18 * 4 && |webVitals.samples| <= 7 * 18 * 4
  {
    webVitalsTotal := new CounterMetric(VITAL_LABELS);
    webVitals := new HistogramMetric(VITAL_LABELS, bounds);
    for i := 0 to |vitals|
      invariant fresh(webVitalsTotal) && fresh(webVitals)
      invariant webVitalsTotal.labelNames == VITAL_LABELS && webVitals.labelNames == VITAL_LABELS
      invariant webVitals.bounds == bounds && Shaped(webVitals.samples, bounds)
      invariant (webVitalsTotal.samples, webVitals.samples) == Recorded(bounds, VitalsLog(vitals[..i]))
    {
      VitalsStep(bounds, vitals, i);
      var _ := RecordWebVital(webVitalsTotal, webVitals, vitals[i]);
    }
    assert vitals[..|vitals|] == vitals;
    WebVitalSeriesAreBounded(vitals, bounds);
  }
}
