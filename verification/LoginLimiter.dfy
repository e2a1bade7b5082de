/**
 * The in-process login limiter: a fixed window of failures per client key, in one map that requests share
 * and that every call first cleans of expired buckets.
 */
module LoginLimiter {
  import opened Sequences

  const LOGIN_FAILURE_LIMIT := 5
  const LOGIN_FAILURE_WINDOW_SECONDS := 600

  datatype Bucket = Bucket(count: int, resetAt: int)

  datatype Result = Allowed | Blocked(retryAfterSeconds: int)

  function Seconds(nowMs: int): int { nowMs / 1000 }

  function Prune(m: map<string, Bucket>, now: int): map<string, Bucket> {
    map key | key in m && m[key].resetAt > now :: m[key]
  }

  /** The bucket of a key that still counts at second `now`. */
  function Live(m: map<string, Bucket>, key: string, now: int): Option<Bucket> {
    if key in m && m[key].resetAt > now then Some(m[key]) else None
  }

  function Answer(bucket: Option<Bucket>, now: int): Result {
    if bucket.None? || bucket.value.count < LOGIN_FAILURE_LIMIT then Allowed
    else Blocked(bucket.value.resetAt - now)
  }

  function Recorded(bucket: Option<Bucket>, now: int): Bucket {
    if bucket.None? then Bucket(1, now + LOGIN_FAILURE_WINDOW_SECONDS)
    else Bucket(bucket.value.count + 1, bucket.value.resetAt)
  }

  class LoginFailures {
    var failures: map<string, Bucket>

    constructor ()
      ensures failures == map[]
    {
      failures := map[];
    }

    method CleanupLoginFailures(now: int)
      modifies this
      ensures failures == Prune(old(failures), now)
    {
      var todo := failures.Keys;
      while todo != {}
        invariant todo <= old(failures).Keys
        invariant forall key :: key in failures <==>
          key in old(failures) && (key in todo || old(failures)[key].resetAt > now)
        invariant forall key :: key in failures ==> failures[key] == old(failures)[key]
        decreases |todo|
      {
        var key :| key in todo;
        if failures[key].resetAt <= now {
          failures := failures - {key};
        }
        todo := todo - {key};
      }
    }

    method CheckLoginRateLimit(key: string, nowMs: int) returns (r: Result)
      modifies this
      ensures r == Answer(Live(old(failures), key, Seconds(nowMs)), Seconds(nowMs))
      ensures failures == Prune(old(failures), Seconds(nowMs))
    {
      var now := Seconds(nowMs);
      CleanupLoginFailures(now);
      if key !in failures || failures[key].resetAt <= now || failures[key].count < LOGIN_FAILURE_LIMIT {
        return Allowed;
      }
      var left := failures[key].resetAt - now;
      return Blocked(if left > 1 then left else 1);
    }

    method RecordLoginFailure(key: string, nowMs: int)
      modifies this
      ensures failures ==
        Prune(old(failures), Seconds(nowMs))[key := Recorded(Live(old(failures), key, Seconds(nowMs)), Seconds(nowMs))]
    {
      var now := Seconds(nowMs);
      CleanupLoginFailures(now);
      if key !in failures || failures[key].resetAt <= now {
        failures := failures[key := Bucket(1, now + LOGIN_FAILURE_WINDOW_SECONDS)];
        return;
      }
      failures := failures[key := failures[key].(count := failures[key].count + 1)];
    }

    method ClearLoginFailures(key: string)
      modifies this
      ensures failures == old(failures) - {key}
    {
      failures := failures - {key};
    }

    /** The first half of a login: the local limiter is asked in any case, and a refusal of the durable one comes
        first. */
    method BeginLogin(key: string, nowMs: int, durable: Option<Result>) returns (r: Result)
      modifies this
      ensures failures == Next(old(failures), Begin(key, nowMs))
      ensures durable.Some? && durable.value.Blocked? ==> r == durable.value
      ensures !(durable.Some? && durable.value.Blocked?) ==>
        r == Answer(Live(old(failures), key, Seconds(nowMs)), Seconds(nowMs))
    {
      r := CheckLoginRateLimit(key, nowMs);
      if durable.Some? && durable.value.Blocked? {
        r := durable.value;
      }
    }

    /** The second half, once the password was verified: only a wrong password is recorded, and a right one forgives. */
    method EndLogin(key: string, nowMs: int, outcome: Outcome)
      modifies this
      ensures failures == Next(old(failures), EventOf(key, nowMs, outcome))
      ensures outcome.Correct? ==> failures == old(failures) - {key}
      ensures outcome.Misconfigured? ==> failures == old(failures)
      ensures outcome.WrongPassword? ==> key in failures
      ensures outcome.WrongPassword? && key in old(failures) && old(failures)[key].resetAt > nowMs / 1000 ==>
        failures[key] == Bucket(old(failures)[key].count + 1, old(failures)[key].resetAt)
      ensures outcome.WrongPassword? && !(key in old(failures) && old(failures)[key].resetAt > nowMs / 1000) ==>
        failures[key] == Bucket(1, nowMs / 1000 + 600)
    {
      match outcome {
        case Misconfigured =>
        case WrongPassword => RecordLoginFailure(key, nowMs);
        case Correct => ClearLoginFailures(key);
      }
    }

    /** Both halves in one step, with a wrong password. */
    method FailedAttempt(key: string, nowMs: int) returns (r: Result)
      modifies this
      ensures r == Answer(Live(old(failures), key, Seconds(nowMs)), Seconds(nowMs))
      ensures failures == Next(old(failures), Attempt(key, nowMs))
    {
      r := BeginLogin(key, nowMs, None);
      if r.Allowed? {
        EndLogin(key, nowMs, WrongPassword);
      }
    }
  }

  // ---- runs ----

  /** What the verification of a login says. */
  datatype Outcome = Correct | WrongPassword | Misconfigured

  /** `Attempt` is a failed login in one step. As the route waits between its two halves, a login may also be a `Begin`
      and, if that was allowed, a later `Record`, `Quit` or `Clear`. `Check` only asks. */
  datatype Event =
    | Attempt(key: string, nowMs: int)
    | Begin(key: string, nowMs: int)
    | Record(key: string, nowMs: int)
    | Quit(key: string, nowMs: int)
    | Check(key: string, nowMs: int)
    | Clear(key: string, nowMs: int)

  function EventOf(key: string, nowMs: int, outcome: Outcome): Event {
    match outcome
    case Correct => Clear(key, nowMs)
    case WrongPassword => Record(key, nowMs)
    case Misconfigured => Quit(key, nowMs)
  }

  function RecordNext(m: map<string, Bucket>, key: string, now: int): map<string, Bucket> {
    Prune(m, now)[key := Recorded(Live(m, key, now), now)]
  }

  function Next(m: map<string, Bucket>, e: Event): map<string, Bucket> {
    var now := Seconds(e.nowMs);
    match e
    case Attempt(key, _) =>
      if Answer(Live(m, key, now), now).Allowed? then RecordNext(Prune(m, now), key, now) else Prune(m, now)
    case Begin(_, _) => Prune(m, now)
    case Quit(_, _) => m
    case Check(_, _) => Prune(m, now)
    case Record(key, _) => RecordNext(m, key, now)
    case Clear(key, _) => m - {key}
  }

  function After(es: seq<Event>): map<string, Bucket> {
    if es == [] then map[] else Next(After(es[..|es| - 1]), es[|es| - 1])
  }

  ghost predicate ClockNeverGoesBack(es: seq<Event>) {
    forall i, j :: 0 <= i < j < |es| ==> es[i].nowMs <= es[j].nowMs
  }

  ghost predicate NotAfter(es: seq<Event>, now: int) {
    forall i :: 0 <= i < |es| ==> Seconds(es[i].nowMs) <= now
  }

  /** What one event does to the live bucket of its own key. */
  function KeyNext(b: Option<Bucket>, e: Event): Option<Bucket> {
    match e
    case Attempt(_, nowMs) => if Answer(b, Seconds(nowMs)).Allowed? then Some(Recorded(b, Seconds(nowMs))) else b
    case Begin(_, _) => b
    case Quit(_, _) => b
    case Check(_, _) => b
    case Record(_, nowMs) => Some(Recorded(b, Seconds(nowMs)))
    case Clear(_, _) => None
  }

  function Expire(b: Option<Bucket>, now: int): Option<Bucket> {
    if b.Some? && b.value.resetAt > now then b else None
  }

  /** An event touches the live bucket of its own key and of no other. */
  lemma NextIsLocal(m: map<string, Bucket>, e: Event, key: string, now: int)
    requires Seconds(e.nowMs) <= now
    ensures e.key != key ==> Live(Next(m, e), key, now) == Live(m, key, now)
    ensures e.key == key ==> Live(Next(m, e), key, now) == Expire(KeyNext(Live(m, key, Seconds(e.nowMs)), e), now)
  {
    var t := Seconds(e.nowMs);
    assert Live(Prune(m, t), e.key, t) == Live(m, e.key, t);
  }

  /** The events of one key. */
  function Own(es: seq<Event>, key: string): seq<Event> {
    if es == [] then []
    else Own(es[..|es| - 1], key) + if es[|es| - 1].key == key then [es[|es| - 1]] else []
  }

  lemma AfterOne(es: seq<Event>, e: Event)
    ensures After(es + [e]) == Next(After(es), e)
  {
    assert (es + [e])[..|es|] == es;
  }

  /** Whatever other keys do, and whenever the shared map is cleaned, a key's live bucket is the one it would have
      alone. */
  lemma {:induction false} KeysDoNotInterfere(es: seq<Event>, key: string, now: int)
    requires ClockNeverGoesBack(es) && NotAfter(es, now)
    ensures Live(After(es), key, now) == Live(After(Own(es, key)), key, now)
    decreases |es|
  {
    if es != [] {
      var before, e := es[..|es| - 1], es[|es| - 1];
      KeysDoNotInterfere(before, key, now);
      NextIsLocal(After(before), e, key, now);
      if e.key == key {
        KeysDoNotInterfere(before, key, Seconds(e.nowMs));
        AfterOne(Own(before, key), e);
        NextIsLocal(After(Own(before, key)), e, key, now);
      } else {
        assert Own(es, key) == Own(before, key);
      }
    }
  }

  /** A blocked client is told exactly how long: with nothing cleared, the check blocks up to the promised second and
      not from it on. */
  lemma RetryAfterIsExact(m: map<string, Bucket>, key: string, now: int, later: int)
    requires now <= later && Answer(Live(m, key, now), now).Blocked?
    ensures Answer(Live(m, key, later), later).Blocked?
      <==> later < now + Answer(Live(m, key, now), now).retryAfterSeconds
    ensures Answer(Live(m, key, now), now).retryAfterSeconds >= 1
  {
  }

  // ---- the bound on recorded failures ----

  datatype Entry = Entry(at: int, bucket: Bucket)

  predicate RecordsFor(b: Option<Bucket>, e: Event, key: string) {
    e.key == key && (e.Record? || (e.Attempt? && Answer(b, Seconds(e.nowMs)).Allowed?))
  }

  /** The failures of one key that a run records, each with the bucket it left behind. */
  function Log(es: seq<Event>, key: string): seq<Entry> {
    if es == [] then []
    else
      var before, e := es[..|es| - 1], es[|es| - 1];
      var b := Live(After(before), key, Seconds(e.nowMs));
      Log(before, key) + if RecordsFor(b, e, key) then [Entry(Seconds(e.nowMs), Recorded(b, Seconds(e.nowMs)))] else []
  }

  /** How an event of the key changes the number of its logins that have begun and not ended. */
  function FlyingNext(n: int, b: Option<Bucket>, e: Event): int {
    if e.Begin? && Answer(b, Seconds(e.nowMs)).Allowed? then n + 1
    else if e.Record? || e.Quit? then n - 1
    else n
  }

  function InFlight(es: seq<Event>, key: string): int {
    if es == [] then 0
    else
      var before, e := es[..|es| - 1], es[|es| - 1];
      if e.key != key then InFlight(before, key)
      else FlyingNext(InFlight(before, key), Live(After(before), key, Seconds(e.nowMs)), e)
  }

  /** Never more than `c` logins of the key are under way, only a login under way records or quits, and nothing
      clears. */
  ghost predicate AtMostInFlight(es: seq<Event>, key: string, c: nat) {
    es != [] ==>
      var before, e := es[..|es| - 1], es[|es| - 1];
      && AtMostInFlight(before, key, c)
      && (e.key == key ==> Disciplined(InFlight(before, key), Live(After(before), key, Seconds(e.nowMs)), e, c))
  }

  predicate Disciplined(flying: int, b: Option<Bucket>, e: Event, c: nat) {
    match e
    case Attempt(_, nowMs) => Answer(b, Seconds(nowMs)).Allowed? ==> flying < c
    case Begin(_, nowMs) => Answer(b, Seconds(nowMs)).Allowed? ==> flying < c
    case Record(_, _) => flying > 0
    case Quit(_, _) => flying > 0
    case Check(_, _) => true
    case Clear(_, _) => false
  }

  /** Every failure of the key comes from an attempt whose check and record are one step, and nothing clears it. */
  ghost predicate OnlyAtomicAttempts(es: seq<Event>, key: string) {
    forall i :: 0 <= i < |es| && es[i].key == key ==> es[i].Attempt? || es[i].Check?
  }

  lemma {:induction false} AtomicAttemptsAreOneAtATime(es: seq<Event>, key: string)
    requires OnlyAtomicAttempts(es, key)
    ensures AtMostInFlight(es, key, 1) && InFlight(es, key) == 0
  {
    if es != [] {
      AtomicAttemptsAreOneAtATime(es[..|es| - 1], key);
    }
  }

  ghost predicate Follows(a: Entry, b: Entry) {
    || (b.bucket.resetAt == a.bucket.resetAt && b.bucket.count == a.bucket.count + 1 && a.at <= b.at < a.bucket.resetAt)
    || (b.bucket == Bucket(1, b.at + LOGIN_FAILURE_WINDOW_SECONDS) && b.at >= a.bucket.resetAt)
  }

  /** The log is a series of windows: one failure opens a window of 600 seconds, and at most `limit` fall into it. */
  ghost predicate Windows(log: seq<Entry>, limit: nat) {
    && (log != [] ==> log[0].bucket == Bucket(1, log[0].at + LOGIN_FAILURE_WINDOW_SECONDS))
    && (forall i :: 0 <= i < |log| ==> 1 <= log[i].bucket.count <= limit)
    && (forall i :: 0 <= i < |log| - 1 ==> Follows(log[i], log[i + 1]))
  }

  /** The live bucket is the one the last logged failure left, until its window ends. */
  function Latest(log: seq<Entry>, now: int): Option<Bucket> {
    if log == [] then None else Expire(Some(log[|log| - 1].bucket), now)
  }

  lemma WindowsExtend(log: seq<Entry>, limit: nat, now: int)
    requires Windows(log, limit) && (log != [] ==> log[|log| - 1].at <= now)
    requires Recorded(Latest(log, now), now).count <= limit
    ensures Windows(log + [Entry(now, Recorded(Latest(log, now), now))], limit)
  {
  }

  /** A bucket that blocks has room for the logins still under way, however they came to be. */
  ghost predicate RoomFor(b: Option<Bucket>, flying: int, c: nat) {
    && 0 <= flying <= c
    && (b.Some? && b.value.count >= LOGIN_FAILURE_LIMIT ==> b.value.count + flying <= LOGIN_FAILURE_LIMIT - 1 + c)
  }

  lemma RoomIsKept(b: Option<Bucket>, flying: int, e: Event, c: nat, now: int)
    requires RoomFor(b, flying, c) && Disciplined(flying, b, e, c)
    ensures RoomFor(Expire(KeyNext(b, e), now), FlyingNext(flying, b, e), c)
    ensures RecordsFor(b, e, e.key) ==> Recorded(b, Seconds(e.nowMs)).count <= LOGIN_FAILURE_LIMIT - 1 + c
  {
  }

  /** The clock never goes back in the run and has not passed `nowMs` at its end. */
  ghost predicate Until(es: seq<Event>, nowMs: int) {
    es != [] ==> es[|es| - 1].nowMs <= nowMs && Until(es[..|es| - 1], es[|es| - 1].nowMs)
  }

  lemma {:induction false} ClockIsUntil(es: seq<Event>, nowMs: int)
    requires ClockNeverGoesBack(es) && (es != [] ==> es[|es| - 1].nowMs <= nowMs)
    ensures Until(es, nowMs)
  {
    if es != [] {
      var n := |es| - 1;
      if n > 0 {
        assert es[n - 1].nowMs <= es[n].nowMs;
      }
      ClockIsUntil(es[..n], es[n].nowMs);
    }
  }

  lemma {:induction false} UntilIsClock(es: seq<Event>, nowMs: int)
    requires Until(es, nowMs)
    ensures ClockNeverGoesBack(es) && forall i :: 0 <= i < |es| ==> es[i].nowMs <= nowMs
  {
    if es != [] {
      UntilIsClock(es[..|es| - 1], es[|es| - 1].nowMs);
    }
  }

  lemma {:induction false} RoomIsAlwaysLeft(es: seq<Event>, key: string, c: nat, nowMs: int)
    requires Until(es, nowMs) && AtMostInFlight(es, key, c)
    ensures RoomFor(Live(After(es), key, Seconds(nowMs)), InFlight(es, key), c)
    decreases |es|
  {
    if es != [] {
      var before, e := es[..|es| - 1], es[|es| - 1];
      NextIsLocal(After(before), e, key, Seconds(nowMs));
      if e.key == key {
        RoomIsAlwaysLeft(before, key, c, e.nowMs);
        RoomIsKept(Live(After(before), key, Seconds(e.nowMs)), InFlight(before, key), e, c, Seconds(nowMs));
      } else {
        RoomIsAlwaysLeft(before, key, c, nowMs);
      }
    }
  }

  lemma LogAfterOne(before: seq<Event>, e: Event, key: string)
    ensures var t := Seconds(e.nowMs);
      var b := Live(After(before), key, t);
      Log(before + [e], key) == Log(before, key) + if RecordsFor(b, e, key) then [Entry(t, Recorded(b, t))] else []
  {
    assert (before + [e])[..|before|] == before;
  }

  lemma LatestAfterOne(before: seq<Event>, e: Event, key: string, now: int)
    requires Seconds(e.nowMs) <= now && (e.key == key ==> !e.Clear?)
    requires Live(After(before), key, Seconds(e.nowMs)) == Latest(Log(before, key), Seconds(e.nowMs))
    requires Live(After(before), key, now) == Latest(Log(before, key), now)
    ensures Live(After(before + [e]), key, now) == Latest(Log(before + [e], key), now)
  {
    AfterOne(before, e);
    LogAfterOne(before, e, key);
    NextIsLocal(After(before), e, key, now);
  }

  lemma {:induction false} LatestIsLive(es: seq<Event>, key: string, c: nat, nowMs: int)
    requires Until(es, nowMs) && AtMostInFlight(es, key, c)
    ensures Log(es, key) != [] ==> Log(es, key)[|Log(es, key)| - 1].at <= Seconds(nowMs)
    ensures Live(After(es), key, Seconds(nowMs)) == Latest(Log(es, key), Seconds(nowMs))
    decreases |es|
  {
    if es != [] {
      var before, e := es[..|es| - 1], es[|es| - 1];
      LatestIsLive(before, key, c, e.nowMs);
      LatestIsLive(before, key, c, nowMs);
      assert es == before + [e];
      LatestAfterOne(before, e, key, Seconds(nowMs));
    }
  }

  lemma {:induction false} LogIsWindows(es: seq<Event>, key: string, c: nat, nowMs: int)
    requires Until(es, nowMs) && AtMostInFlight(es, key, c)
    ensures Windows(Log(es, key), LOGIN_FAILURE_LIMIT - 1 + c)
  {
    if es != [] {
      var before, e := es[..|es| - 1], es[|es| - 1];
      LogIsWindows(before, key, c, e.nowMs);
      assert es == before + [e];
      WindowsAfterOne(before, e, key, c);
    }
  }

  lemma WindowsAfterOne(before: seq<Event>, e: Event, key: string, c: nat)
    requires Until(before, e.nowMs) && AtMostInFlight(before, key, c)
    requires e.key == key ==> Disciplined(InFlight(before, key), Live(After(before), key, Seconds(e.nowMs)), e, c)
    requires Windows(Log(before, key), LOGIN_FAILURE_LIMIT - 1 + c)
    ensures Windows(Log(before + [e], key), LOGIN_FAILURE_LIMIT - 1 + c)
  {
    var t := Seconds(e.nowMs);
    var b, log := Live(After(before), key, t), Log(before, key);
    LogAfterOne(before, e, key);
    if RecordsFor(b, e, key) {
      LatestIsLive(before, key, c, e.nowMs);
      RoomIsAlwaysLeft(before, key, c, e.nowMs);
      RoomIsKept(b, InFlight(before, key), e, c, t);
      WindowsExtend(log, LOGIN_FAILURE_LIMIT - 1 + c, t);
    } else {
      assert log + [] == log;
    }
  }

  /** The recorded failures of every run form windows of at most `4 + c`. */
  lemma FailuresFormWindows(es: seq<Event>, key: string, c: nat)
    requires ClockNeverGoesBack(es) && AtMostInFlight(es, key, c)
    ensures Windows(Log(es, key), 4 + c)
  {
    if es != [] {
      ClockIsUntil(es, es[|es| - 1].nowMs);
      LogIsWindows(es, key, c, es[|es| - 1].nowMs);
    }
  }

  lemma WindowSteps(log: seq<Entry>, limit: nat, i: nat, k: nat)
    requires Windows(log, limit) && i + k < |log|
    ensures log[i].bucket.resetAt <= log[i + k].bucket.resetAt && log[i].at <= log[i + k].at
    ensures log[i + k].bucket.resetAt - LOGIN_FAILURE_WINDOW_SECONDS <= log[i + k].at < log[i + k].bucket.resetAt
    ensures (log[i + k].bucket.count - log[i].bucket.count == k && log[i + k].bucket.resetAt == log[i].bucket.resetAt)
            || log[i + k].bucket.resetAt - LOGIN_FAILURE_WINDOW_SECONDS >= log[i].bucket.resetAt
    decreases i + k, k
  {
    if k > 0 {
      WindowSteps(log, limit, i, k - 1);
      assert Follows(log[i + k - 1], log[i + k]);
    } else if i > 0 {
      WindowSteps(log, limit, i - 1, 0);
      assert Follows(log[i - 1], log[i]);
    }
  }

  lemma WindowOpener(log: seq<Entry>, limit: nat, i: nat) returns (p: nat)
    requires Windows(log, limit) && i < |log|
    ensures p <= i && log[p].bucket.count == 1 && log[p].bucket.resetAt == log[i].bucket.resetAt
    ensures log[p].at == log[p].bucket.resetAt - LOGIN_FAILURE_WINDOW_SECONDS
    ensures i - p == log[i].bucket.count - 1
  {
    if i == 0 {
      p := 0;
    } else {
      assert Follows(log[i - 1], log[i]);
      if log[i].bucket.resetAt == log[i - 1].bucket.resetAt && log[i].bucket.count == log[i - 1].bucket.count + 1 {
        p := WindowOpener(log, limit, i - 1);
      } else {
        p := i;
      }
    }
  }

  /** With at most `limit` failures in a window, twice as many in a row span at least a whole window. */
  lemma TwoWindowfulsSpanAWindow(log: seq<Entry>, limit: nat, i: nat)
    requires limit > 0 && Windows(log, limit) && i + 2 * limit - 1 < |log|
    ensures log[i + 2 * limit - 1].at >= log[i].at + LOGIN_FAILURE_WINDOW_SECONDS
  {
    var p := WindowOpener(log, limit, i);
    var n := p + limit;
    WindowSteps(log, limit, p, limit);
    WindowSteps(log, limit, i, 0);
    if p == i {
      WindowSteps(log, limit, n, limit - 1);
    } else {
      WindowSteps(log, limit, n, limit);
      WindowSteps(log, limit, n + limit, i + 2 * limit - 1 - (n + limit));
    }
  }

  predicate InInterval(x: Entry, lo: int, hi: int) { lo <= x.at < hi }

  lemma {:induction false} CountAtMostLength<T>(p: T -> bool, s: seq<T>)
    ensures Count(p, s) <= |s|
  {
    if s != [] { CountAtMostLength(p, s[1..]); }
  }

  lemma {:induction false} CountSpread(log: seq<Entry>, n: nat, lo: int)
    requires forall i, j :: 0 <= i <= j < |log| ==> log[i].at <= log[j].at
    requires forall i :: 0 <= i < |log| - n ==> log[i + n].at >= log[i].at + LOGIN_FAILURE_WINDOW_SECONDS
    ensures Count((x: Entry) => InInterval(x, lo, lo + LOGIN_FAILURE_WINDOW_SECONDS), log) <= n
  {
    var p := (x: Entry) => InInterval(x, lo, lo + LOGIN_FAILURE_WINDOW_SECONDS);
    if log == [] {
    } else if log[0].at < lo {
      CountSpread(log[1..], n, lo);
    } else if |log| <= n {
      CountAtMostLength(p, log);
    } else {
      assert log == log[..n] + log[n..];
      CountAppend(p, log[..n], log[n..]);
      CountAtMostLength(p, log[..n]);
      forall x | x in log[n..] ensures !p(x) {
        var j :| 0 <= j < |log[n..]| && log[n..][j] == x;
        assert log[n].at <= log[n + j].at;
      }
      CountZero(p, log[n..]);
    }
  }

  function Within(es: seq<Event>, key: string, lo: int): nat {
    Count((x: Entry) => InInterval(x, lo, lo + LOGIN_FAILURE_WINDOW_SECONDS), Log(es, key))
  }

  lemma WindowsSpread(log: seq<Entry>, limit: nat)
    requires limit > 0 && Windows(log, limit)
    ensures forall i, j :: 0 <= i <= j < |log| ==> log[i].at <= log[j].at
    ensures var n := 2 * limit - 1;
      forall i :: 0 <= i < |log| - n ==> log[i + n].at >= log[i].at + LOGIN_FAILURE_WINDOW_SECONDS
  {
    var n := 2 * limit - 1;
    forall i, j | 0 <= i <= j < |log| ensures log[i].at <= log[j].at {
      WindowSteps(log, limit, i, j - i);
    }
    forall i | 0 <= i < |log| - n ensures log[i + n].at >= log[i].at + LOGIN_FAILURE_WINDOW_SECONDS {
      TwoWindowfulsSpanAWindow(log, limit, i);
    }
  }

  /** With at most `c` logins of a key under way at any time and none cleared, any half-open 600 seconds hold at most
      `2 * (4 + c) - 1` recorded failures of the key, in every run and whatever other clients do. */
  lemma BoundForLoginsInFlight(es: seq<Event>, key: string, c: nat, lo: int)
    requires ClockNeverGoesBack(es) && AtMostInFlight(es, key, c)
    ensures Within(es, key, lo) <= 2 * (4 + c) - 1
  {
    FailuresFormWindows(es, key, c);
    WindowsSpread(Log(es, key), 4 + c);
    CountSpread(Log(es, key), 2 * (4 + c) - 1, lo);
  }

  /** With attempts that are one step each, that is nine. */
  lemma AtMostNineInAnyWindow(es: seq<Event>, key: string, lo: int)
    requires ClockNeverGoesBack(es) && OnlyAtomicAttempts(es, key)
    ensures Within(es, key, lo) <= 9
  {
    AtomicAttemptsAreOneAtATime(es, key);
    BoundForLoginsInFlight(es, key, 1, lo);
  }

  /** At most `4 + c` recorded failures share a bucket window: the next one opens a later window. */
  lemma AtMostPerBucket(es: seq<Event>, key: string, c: nat, i: nat)
    requires ClockNeverGoesBack(es) && AtMostInFlight(es, key, c)
    requires i + 4 + c < |Log(es, key)|
    ensures var log := Log(es, key);
      log[i + 4 + c].bucket.resetAt >= log[i].bucket.resetAt + LOGIN_FAILURE_WINDOW_SECONDS
  {
    FailuresFormWindows(es, key, c);
    WindowSteps(Log(es, key), 4 + c, i, 4 + c);
  }

  /** With attempts that are one step each, the sixth failure opens a later window. */
  lemma AtMostFivePerBucket(es: seq<Event>, key: string, i: nat)
    requires ClockNeverGoesBack(es) && OnlyAtomicAttempts(es, key)
    requires i + 5 < |Log(es, key)|
    ensures var log := Log(es, key);
      log[i + 5].bucket.resetAt >= log[i].bucket.resetAt + LOGIN_FAILURE_WINDOW_SECONDS
  {
    AtomicAttemptsAreOneAtATime(es, key);
    AtMostPerBucket(es, key, 1, i);
  }

  // ---- the bound is reached ----

  lemma WithinAppend(log: seq<Entry>, x: Entry, lo: int)
    ensures var p := (x: Entry) => InInterval(x, lo, lo + LOGIN_FAILURE_WINDOW_SECONDS);
      Count(p, log + [x]) == Count(p, log) + if lo <= x.at < lo + 600 then 1 else 0
  {
    var p := (x: Entry) => InInterval(x, lo, lo + LOGIN_FAILURE_WINDOW_SECONDS);
    CountAppend(p, log, [x]);
    assert Count(p, [x]) == (if p(x) then 1 else 0) + Count(p, [x][1..]);
  }

  /** Where a key stands: its latest bucket, and the logins under way. */
  datatype Standing = Standing(count: int, resetAt: int, flying: int)

  ghost predicate Stands(es: seq<Event>, key: string, at: nat, st: Standing, c: nat) {
    && Until(es, at * 1000) && AtMostInFlight(es, key, c)
    && Log(es, key) != [] && Log(es, key)[|Log(es, key)| - 1].bucket == Bucket(st.count, st.resetAt)
    && InFlight(es, key) == st.flying
  }

  /** The event has room: an attempt or a beginning login is let in, or one under way records. */
  predicate Enabled(st: Standing, e: Event, c: nat) {
    || ((e.Attempt? || e.Begin?) && st.count < 5 && st.flying < c)
    || (e.Record? && st.flying > 0)
  }

  function Moved(st: Standing, e: Event): Standing {
    match e
    case Attempt(_, _) => st.(count := st.count + 1)
    case Begin(_, _) => st.(flying := st.flying + 1)
    case Record(_, _) => st.(count := st.count + 1, flying := st.flying - 1)
    case _ => st
  }

  lemma LatestIs(es: seq<Event>, key: string, at: nat, st: Standing, c: nat)
    requires Stands(es, key, at, st, c) && st.resetAt > at
    ensures Live(After(es), key, at) == Some(Bucket(st.count, st.resetAt))
  {
    LatestIsLive(es, key, c, at * 1000);
  }

  lemma StepInWindow(es: seq<Event>, e: Event, at: nat, st: Standing, c: nat, lo: int)
    requires Stands(es, e.key, at, st, c) && st.resetAt > at && e.nowMs == at * 1000 && Enabled(st, e, c)
    ensures Stands(es + [e], e.key, at, Moved(st, e), c)
    ensures lo <= at < lo + 600 ==> Within(es + [e], e.key, lo) == Within(es, e.key, lo) + Moved(st, e).count - st.count
  {
    var es', key, log := es + [e], e.key, Log(es, e.key);
    assert es'[..|es|] == es && Seconds(e.nowMs) == at;
    LatestIs(es, key, at, st, c);
    if e.Begin? {
      assert Log(es', key) == log + [];
      assert log + [] == log;
    } else {
      var x := Entry(at, Bucket(st.count + 1, st.resetAt));
      assert Log(es', key) == log + [x];
      WithinAppend(log, x, lo);
    }
  }

  function Repeated(e: Event, n: nat): seq<Event> { seq(n, _ => e) }

  function MovedBy(st: Standing, e: Event, n: nat): Standing
    decreases n
  {
    if n == 0 then st else MovedBy(Moved(st, e), e, n - 1)
  }

  /** Enough room for `n` such events in a row. */
  predicate EnabledBy(st: Standing, e: Event, n: nat, c: nat) {
    || (e.Attempt? && st.count + n <= 5 && (n > 0 ==> st.flying < c))
    || (e.Begin? && st.flying + n <= c && (n > 0 ==> st.count < 5))
    || (e.Record? && n <= st.flying)
  }

  lemma EnabledOnce(st: Standing, e: Event, n: nat, c: nat)
    requires n > 0 && EnabledBy(st, e, n, c)
    ensures Enabled(st, e, c) && Moved(st, e).resetAt == st.resetAt
    ensures EnabledBy(Moved(st, e), e, n - 1, c)
  {
  }

  function Then(es: seq<Event>, e: Event, n: nat): seq<Event>
    decreases n
  {
    if n == 0 then es else Then(es + [e], e, n - 1)
  }

  lemma {:induction false} ThenIsRepeated(es: seq<Event>, e: Event, n: nat)
    ensures Then(es, e, n) == es + Repeated(e, n)
    decreases n
  {
    if n > 0 {
      ThenIsRepeated(es + [e], e, n - 1);
      assert es + [e] + Repeated(e, n - 1) == es + Repeated(e, n);
    }
  }

  lemma {:induction false} Burst(es: seq<Event>, e: Event, n: nat, at: nat, st: Standing, c: nat, lo: int)
    requires Stands(es, e.key, at, st, c) && st.resetAt > at && e.nowMs == at * 1000 && EnabledBy(st, e, n, c)
    ensures Stands(Then(es, e, n), e.key, at, MovedBy(st, e, n), c)
    ensures lo <= at < lo + 600 ==>
      Within(Then(es, e, n), e.key, lo) == Within(es, e.key, lo) + MovedBy(st, e, n).count - st.count
    decreases n
  {
    if n > 0 {
      EnabledOnce(st, e, n, c);
      StepInWindow(es, e, at, st, c, lo);
      Burst(es + [e], e, n - 1, at, Moved(st, e), c, lo);
    }
  }

  lemma {:induction false} MovedByIs(st: Standing, e: Event, n: nat)
    requires e.Attempt? || e.Begin? || e.Record?
    ensures MovedBy(st, e, n) == Standing(if e.Begin? then st.count else st.count + n, st.resetAt,
                                          if e.Begin? then st.flying + n
                                          else if e.Record? then st.flying - n
                                          else st.flying)
    decreases n
  {
    if n > 0 {
      MovedByIs(Moved(st, e), e, n - 1);
    }
  }

  /** An attempt when no window is open opens one. */
  lemma Opens(es: seq<Event>, key: string, at: nat, c: nat, lo: int)
    requires c > 0 && Until(es, at * 1000) && AtMostInFlight(es, key, c) && InFlight(es, key) == 0
    requires Log(es, key) != [] ==> Log(es, key)[|Log(es, key)| - 1].bucket.resetAt <= at
    ensures var es' := es + [Attempt(key, at * 1000)];
      && Stands(es', key, at, Standing(1, at + 600, 0), c)
      && Within(es', key, lo) == Within(es, key, lo) + if lo <= at < lo + 600 then 1 else 0
  {
    var e, log, x := Attempt(key, at * 1000), Log(es, key), Entry(at, Bucket(1, at + 600));
    assert (es + [e])[..|es|] == es && Seconds(at * 1000) == at;
    LatestIsLive(es, key, c, at * 1000);
    assert Latest(log, at) == None;
    WithinAppend(log, x, lo);
    assert Log(es + [e], key) == log + [x];
  }

  /** A window that is open with one failure, filled to the brim: three attempts, then `c` logins that are all let in
      before the first of them records. */
  function Fill(key: string, at: nat, c: nat): seq<Event> {
    Repeated(Attempt(key, at * 1000), 3) + Repeated(Begin(key, at * 1000), c) + Repeated(Record(key, at * 1000), c)
  }

  lemma FillsByAttempts(es: seq<Event>, key: string, at: nat, resetAt: int, c: nat, lo: int)
    requires c > 0 && Stands(es, key, at, Standing(1, resetAt, 0), c) && resetAt > at
    ensures var es' := es + Repeated(Attempt(key, at * 1000), 3);
      && Stands(es', key, at, Standing(4, resetAt, 0), c)
      && (lo <= at < lo + 600 ==> Within(es', key, lo) == Within(es, key, lo) + 3)
  {
    var st, e := Standing(1, resetAt, 0), Attempt(key, at * 1000);
    MovedByIs(st, e, 3);
    ThenIsRepeated(es, e, 3);
    Burst(es, e, 3, at, st, c, lo);
  }

  lemma FillsByLogins(es: seq<Event>, key: string, at: nat, resetAt: int, c: nat, lo: int)
    requires Stands(es, key, at, Standing(4, resetAt, 0), c) && resetAt > at
    ensures var es' := es + Repeated(Begin(key, at * 1000), c) + Repeated(Record(key, at * 1000), c);
      && Stands(es', key, at, Standing(4 + c, resetAt, 0), c)
      && (lo <= at < lo + 600 ==> Within(es', key, lo) == Within(es, key, lo) + c)
  {
    var b, r, begun := Begin(key, at * 1000), Record(key, at * 1000), es + Repeated(Begin(key, at * 1000), c);
    var s1, s2 := Standing(4, resetAt, 0), Standing(4, resetAt, c);
    MovedByIs(s1, b, c);
    MovedByIs(s2, r, c);
    ThenIsRepeated(es, b, c);
    ThenIsRepeated(begun, r, c);
    Burst(es, b, c, at, s1, c, lo);
    Burst(begun, r, c, at, s2, c, lo);
  }

  lemma Fills(es: seq<Event>, key: string, at: nat, resetAt: int, c: nat, lo: int)
    requires c > 0 && Stands(es, key, at, Standing(1, resetAt, 0), c) && resetAt > at
    ensures Stands(es + Fill(key, at, c), key, at, Standing(4 + c, resetAt, 0), c)
    ensures lo <= at < lo + 600 ==> Within(es + Fill(key, at, c), key, lo) == Within(es, key, lo) + 3 + c
  {
    var a, b, r := Repeated(Attempt(key, at * 1000), 3), Repeated(Begin(key, at * 1000), c),
      Repeated(Record(key, at * 1000), c);
    FillsByAttempts(es, key, at, resetAt, c, lo);
    FillsByLogins(es + a, key, at, resetAt, c, lo);
    assert es + Fill(key, at, c) == es + a + b + r;
  }

  function FirstWindowful(key: string, at: nat, c: nat): seq<Event> { [Attempt(key, 0)] + Fill(key, at, c) }

  function TwoWindowfuls(key: string, c: nat): seq<Event> {
    FirstWindowful(key, 599, c) + [Attempt(key, 600000)] + Fill(key, 600, c)
  }

  lemma FirstWindowfulStands(key: string, at: nat, c: nat)
    requires c > 0 && 0 < at < 600
    ensures Stands(FirstWindowful(key, at, c), key, 600, Standing(4 + c, 600, 0), c)
    ensures Within(FirstWindowful(key, at, c), key, 1) == 3 + c
  {
    var none: seq<Event> := [];
    var one := [Attempt(key, 0)];
    assert none + one == one;
    assert Stands(one, key, 0, Standing(1, 600, 0), c) && Within(one, key, 1) == 0 by { Opens(none, key, 0, c, 1); }
    assert Stands(one, key, at, Standing(1, 600, 0), c) by { Later(one, key, 0, at, Standing(1, 600, 0), c); }
    Fills(one, key, at, 600, c, 1);
    Later(FirstWindowful(key, at, c), key, at, 600, Standing(4 + c, 600, 0), c);
  }

  lemma Later(es: seq<Event>, key: string, at: nat, later: nat, st: Standing, c: nat)
    requires Stands(es, key, at, st, c) && at <= later
    ensures Stands(es, key, later, st, c)
  {
  }

  /** For every `c` the bound is reached, so nine is no bound once two logins of a key may be under way: what was
      checked is not what is recorded. */
  lemma BoundIsReached(key: string, c: nat)
    requires c > 0
    ensures var es := TwoWindowfuls(key, c);
      ClockNeverGoesBack(es) && AtMostInFlight(es, key, c) && Within(es, key, 1) == 2 * (4 + c) - 1
  {
    var first := FirstWindowful(key, 599, c);
    FirstWindowfulStands(key, 599, c);
    Opens(first, key, 600, c, 1);
    Fills(first + [Attempt(key, 600000)], key, 600, 1200, c, 1);
    UntilIsClock(TwoWindowfuls(key, c), 600000);
  }
}
