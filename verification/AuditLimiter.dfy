/**
 * The durable login limiter, which replays the newest audit rows of a client at every attempt.
 */
module AuditLimiter {
  import opened Sequences
  import opened LoginLimiter

  /** An audit row; `at` is its time in whole seconds, absent when it does not parse. */
  datatype Row = Row(at: Option<int>, outcome: string, ipHash: Option<string>, reason: Option<string>)

  predicate SameBucket(row: Row, bucketHash: Option<string>) {
    if bucketHash.None? then row.ipHash.None? || row.ipHash.value == "" else row.ipHash == bucketHash
  }

  predicate InWindow(row: Row, bucketHash: Option<string>, now: int) {
    row.at.Some? && row.at.value >= now - LOGIN_FAILURE_WINDOW_SECONDS && SameBucket(row, bucketHash)
  }

  predicate IsSuccess(row: Row) { row.outcome == "succeeded" }

  predicate IsFailure(row: Row) {
    && (row.outcome == "denied" || row.outcome == "failed")
    && (row.reason == Some("invalid_credentials") || row.reason == Some("misconfigured"))
  }

  function Max(a: int, b: int): int { if a >= b then a else b }

  /** The time of the last success in the window; zero when there is none. */
  function LastSuccess(rows: seq<Row>, bucketHash: Option<string>, now: int): int {
    if rows == [] then 0
    else
      var row, before := rows[|rows| - 1], LastSuccess(rows[..|rows| - 1], bucketHash, now);
      if InWindow(row, bucketHash, now) && IsSuccess(row) then Max(before, row.at.value) else before
  }

  function Failures(rows: seq<Row>, bucketHash: Option<string>, now: int): seq<int> {
    if rows == [] then []
    else
      var row := rows[|rows| - 1];
      Failures(rows[..|rows| - 1], bucketHash, now)
      + if InWindow(row, bucketHash, now) && IsFailure(row) then [row.at.value] else []
  }

  function Later(times: seq<int>, bound: int): (r: seq<int>)
    ensures forall t :: t in r <==> t in times && t > bound
  {
    if times == [] then []
    else
      var rest := Later(times[..|times| - 1], bound);
      assert times == times[..|times| - 1] + [times[|times| - 1]];
      rest + if times[|times| - 1] > bound then [times[|times| - 1]] else []
  }

  function Counted(rows: seq<Row>, bucketHash: Option<string>, now: int): seq<int> {
    Later(Failures(rows, bucketHash, now), LastSuccess(rows, bucketHash, now))
  }

  function Min(s: seq<int>): (m: int)
    requires s != []
    ensures m in s && forall t :: t in s ==> m <= t
  {
    if |s| == 1 then s[0]
    else
      var m := Min(s[1..]);
      assert s == [s[0]] + s[1..];
      if s[0] <= m then s[0] else m
  }

  function Decide(counted: seq<int>, now: int): Result {
    if |counted| < LOGIN_FAILURE_LIMIT then Allowed
    else Blocked(Max(Min(counted) + LOGIN_FAILURE_WINDOW_SECONDS - now, 1))
  }

  function Verdict(rows: seq<Row>, bucketHash: Option<string>, now: int): Result {
    Decide(Counted(rows, bucketHash, now), now)
  }

  /** The replay of the rows. */
  method CheckDurableLoginRateLimit(rows: seq<Row>, bucketHash: Option<string>, now: int) returns (r: Result)
    ensures r == Verdict(rows, bucketHash, now)
  {
    var windowStart := now - LOGIN_FAILURE_WINDOW_SECONDS;
    var lastSuccessAt := 0;
    var failures: seq<int> := [];
    for n := 0 to |rows|
      invariant lastSuccessAt == LastSuccess(rows[..n], bucketHash, now)
      invariant failures == Failures(rows[..n], bucketHash, now)
    {
      var row := rows[n];
      assert rows[..n + 1][..n] == rows[..n];
      if row.at.None? || row.at.value < windowStart || !SameBucket(row, bucketHash) {
        continue;
      }
      if row.outcome == "succeeded" {
        lastSuccessAt := Max(lastSuccessAt, row.at.value);
        continue;
      }
      if (row.outcome == "denied" || row.outcome == "failed")
         && (row.reason == Some("invalid_credentials") || row.reason == Some("misconfigured")) {
        failures := failures + [row.at.value];
      }
    }
    assert rows[..|rows|] == rows;
    var counted := Later(failures, lastSuccessAt);
    if |counted| < LOGIN_FAILURE_LIMIT {
      return Allowed;
    }
    return Blocked(Max(Min(counted) + LOGIN_FAILURE_WINDOW_SECONDS - now, 1));
  }

  // ---- the reference count ----

  /** A failure in the window that is later than every success in the window. */
  ghost predicate Unforgiven(rows: seq<Row>, bucketHash: Option<string>, now: int, row: Row) {
    && InWindow(row, bucketHash, now) && IsFailure(row)
    && forall s :: s in rows && InWindow(s, bucketHash, now) && IsSuccess(s) ==> s.at.value < row.at.value
  }

  /** The code starts `lastSuccessAt` at zero, so it also wants failures to be later than the epoch. */
  ghost predicate CountsRow(rows: seq<Row>, bucketHash: Option<string>, now: int, row: Row) {
    Unforgiven(rows, bucketHash, now, row) && row.at.value > 0
  }

  lemma {:induction false} LastSuccessIsBound(rows: seq<Row>, bucketHash: Option<string>, now: int, t: int)
    ensures t > LastSuccess(rows, bucketHash, now)
      <==> t > 0 && forall s :: s in rows && InWindow(s, bucketHash, now) && IsSuccess(s) ==> s.at.value < t
  {
    if rows != [] {
      var n := |rows| - 1;
      assert rows == rows[..n] + [rows[n]];
      LastSuccessIsBound(rows[..n], bucketHash, now, t);
    }
  }

  predicate FailureAfter(row: Row, bucketHash: Option<string>, now: int, bound: int) {
    InWindow(row, bucketHash, now) && IsFailure(row) && row.at.value > bound
  }

  lemma {:induction false} CountedLength(rows: seq<Row>, bucketHash: Option<string>, now: int, bound: int)
    ensures |Later(Failures(rows, bucketHash, now), bound)|
         == Count((row: Row) => FailureAfter(row, bucketHash, now, bound), rows)
  {
    var p := (row: Row) => FailureAfter(row, bucketHash, now, bound);
    if rows != [] {
      var n := |rows| - 1;
      assert rows == rows[..n] + [rows[n]];
      CountedLength(rows[..n], bucketHash, now, bound);
      CountAppend(p, rows[..n], [rows[n]]);
      assert Count(p, [rows[n]]) == if p(rows[n]) then 1 else 0 by { assert [rows[n]][1..] == []; }
      var fs := Failures(rows[..n], bucketHash, now);
      if InWindow(rows[n], bucketHash, now) && IsFailure(rows[n]) {
        assert (fs + [rows[n].at.value])[..|fs|] == fs;
      } else {
        assert Failures(rows, bucketHash, now) == fs;
      }
    }
  }

  /** The verdict is the reference count: blocked exactly from five failures on that are later than every success
      of the window (and than the epoch). */
  lemma BlockedIffFiveCount(rows: seq<Row>, bucketHash: Option<string>, now: int)
    ensures Verdict(rows, bucketHash, now).Blocked?
      <==> Count((row: Row) => CountsRow(rows, bucketHash, now, row), rows) >= 5
  {
    var bound := LastSuccess(rows, bucketHash, now);
    CountedLength(rows, bucketHash, now, bound);
    forall row: Row ensures FailureAfter(row, bucketHash, now, bound) == CountsRow(rows, bucketHash, now, row) {
      if row.at.Some? { LastSuccessIsBound(rows, bucketHash, now, row.at.value); }
    }
    CountSame((row: Row) => FailureAfter(row, bucketHash, now, bound),
              (row: Row) => CountsRow(rows, bucketHash, now, row), rows);
  }

  /** A row of the client: with its hash, or, for a client without a trusted address, with none. */
  ghost predicate OfClient(row: Row, bucketHash: Option<string>) {
    match bucketHash
    case Some(x) => row.ipHash == Some(x)
    case None => row.ipHash == None || row.ipHash == Some("")
  }

  ghost predicate SucceededLately(row: Row, bucketHash: Option<string>, now: int) {
    row.at.Some? && row.at.value >= now - 600 && OfClient(row, bucketHash) && row.outcome == "succeeded"
  }

  /** The reference on the fields alone: a login of the client that failed or was denied for its credentials or the
      settings, in the last 600 seconds and after the epoch, later than every login of the client that succeeded in that
      time. */
  ghost predicate CountsAgainst(rows: seq<Row>, bucketHash: Option<string>, now: int, row: Row) {
    && row.at.Some? && row.at.value > 0 && row.at.value >= now - 600 && OfClient(row, bucketHash)
    && (row.outcome == "denied" || row.outcome == "failed")
    && (row.reason == Some("invalid_credentials") || row.reason == Some("misconfigured"))
    && forall s :: s in rows && SucceededLately(s, bucketHash, now) ==> s.at.value < row.at.value
  }

  lemma BlockedIffOnTheFields(rows: seq<Row>, bucketHash: Option<string>, now: int)
    ensures Verdict(rows, bucketHash, now).Blocked?
      <==> Count((row: Row) => CountsAgainst(rows, bucketHash, now, row), rows) >= 5
  {
    BlockedIffFiveCount(rows, bucketHash, now);
    forall row: Row ensures CountsRow(rows, bucketHash, now, row) == CountsAgainst(rows, bucketHash, now, row) {
      assert forall s ::
        InWindow(s, bucketHash, now) && IsSuccess(s) <==> SucceededLately(s, bucketHash, now);
    }
    CountSame((row: Row) => CountsRow(rows, bucketHash, now, row),
              (row: Row) => CountsAgainst(rows, bucketHash, now, row), rows);
  }

  lemma OneMoreRow(rows: seq<Row>, row: Row, bucketHash: Option<string>, now: int)
    ensures Failures(rows + [row], bucketHash, now) == Failures(rows, bucketHash, now)
      + if InWindow(row, bucketHash, now) && IsFailure(row) then [row.at.value] else []
    ensures LastSuccess(rows + [row], bucketHash, now)
      == if InWindow(row, bucketHash, now) && IsSuccess(row)
         then Max(LastSuccess(rows, bucketHash, now), row.at.value)
         else LastSuccess(rows, bucketHash, now)
  {
    assert (rows + [row])[..|rows|] == rows;
  }

  lemma OneMoreKept(own: Row -> bool, rows: seq<Row>, row: Row)
    ensures Filter(own, rows + [row]) == if own(row) then Filter(own, rows) + [row] else Filter(own, rows)
  {
    FilterAppend(own, rows, [row]);
    assert [row][1..] == [];
    assert Filter(own, [row]) == if own(row) then [row] + [] else [];
  }

  lemma {:induction false} FilteredAlike(rows: seq<Row>, own: Row -> bool, bucketHash: Option<string>, now: int)
    requires forall row :: InWindow(row, bucketHash, now) ==> own(row)
    ensures Failures(Filter(own, rows), bucketHash, now) == Failures(rows, bucketHash, now)
    ensures LastSuccess(Filter(own, rows), bucketHash, now) == LastSuccess(rows, bucketHash, now)
  {
    if rows != [] {
      var before, row := rows[..|rows| - 1], rows[|rows| - 1];
      FilteredAlike(before, own, bucketHash, now);
      assert rows == before + [row];
      OneMoreKept(own, before, row);
      OneMoreRow(before, row, bucketHash, now);
      if own(row) {
        OneMoreRow(Filter(own, before), row, bucketHash, now);
      }
    }
  }

  /** Nobody is held to the failures of others: the whole verdict is that of the client's own rows. */
  lemma OnlyOwnRowsCount(rows: seq<Row>, x: string, now: int)
    ensures Verdict(rows, Some(x), now) == Verdict(Filter((row: Row) => row.ipHash == Some(x), rows), Some(x), now)
  {
    FilteredAlike(rows, (row: Row) => row.ipHash == Some(x), Some(x), now);
  }

  lemma OnlyNamelessRowsCount(rows: seq<Row>, now: int)
    ensures Verdict(rows, None, now)
         == Verdict(Filter((row: Row) => row.ipHash == None || row.ipHash == Some(""), rows), None, now)
  {
    FilteredAlike(rows, (row: Row) => row.ipHash == None || row.ipHash == Some(""), None, now);
  }

  /** Away from the first ten minutes of the epoch the zero start of `lastSuccessAt` does not matter. */
  lemma EpochStartIsHarmless(rows: seq<Row>, bucketHash: Option<string>, now: int, row: Row)
    requires now > LOGIN_FAILURE_WINDOW_SECONDS
    ensures CountsRow(rows, bucketHash, now, row) <==> Unforgiven(rows, bucketHash, now, row)
  {
  }

  /** What the reference count says: five failures of the window that no success of the window forgives. */
  ghost predicate ReferenceBlocks(rows: seq<Row>, bucketHash: Option<string>, now: int) {
    Count((row: Row) => Unforgiven(rows, bucketHash, now, row), rows) >= 5
  }

  function FiveRows(at: int, bucketHash: Option<string>): seq<Row> {
    seq(5, _ => Row(Some(at), "denied", bucketHash, Some("invalid_credentials")))
  }

  lemma {:induction false} CountRepeated<T>(p: T -> bool, x: T, n: nat)
    ensures Count(p, seq(n, _ => x)) == if p(x) then n else 0
  {
    if n > 0 {
      CountRepeated(p, x, n - 1);
      assert seq(n, _ => x)[1..] == seq(n - 1, _ => x);
    }
  }

  lemma FiveRowsCount(at: int, bucketHash: Option<string>, now: int)
    requires now - LOGIN_FAILURE_WINDOW_SECONDS <= at
    ensures ReferenceBlocks(FiveRows(at, bucketHash), bucketHash, now)
    ensures Verdict(FiveRows(at, bucketHash), bucketHash, now).Blocked? <==> at > 0
  {
    var rows := FiveRows(at, bucketHash);
    CountRepeated((row: Row) => Unforgiven(rows, bucketHash, now, row), rows[0], 5);
    CountRepeated((row: Row) => CountsRow(rows, bucketHash, now, row), rows[0], 5);
    BlockedIffFiveCount(rows, bucketHash, now);
  }

  /** ... and in the first ten minutes it does: the code disagrees with the reference count on some rows exactly when
      `now` is at most 600. Five failures at second zero are such rows: the reference blocks, the code allows. */
  lemma EpochStartMattersIff(now: int)
    ensures (exists rows, bucketHash ::
               Verdict(rows, bucketHash, now).Blocked? != ReferenceBlocks(rows, bucketHash, now))
      <==> now <= LOGIN_FAILURE_WINDOW_SECONDS
    ensures now <= LOGIN_FAILURE_WINDOW_SECONDS ==>
      Verdict(FiveRows(0, None), None, now) == Allowed && ReferenceBlocks(FiveRows(0, None), None, now)
  {
    if now <= LOGIN_FAILURE_WINDOW_SECONDS {
      FiveRowsCount(0, None, now);
    } else {
      forall rows, bucketHash
        ensures Verdict(rows, bucketHash, now).Blocked? == ReferenceBlocks(rows, bucketHash, now)
      {
        BlockedIffFiveCount(rows, bucketHash, now);
        CountSame((row: Row) => CountsRow(rows, bucketHash, now, row),
                  (row: Row) => Unforgiven(rows, bucketHash, now, row), rows);
      }
    }
  }

  lemma {:induction false} FailureTimes(rows: seq<Row>, bucketHash: Option<string>, now: int, t: int)
    ensures t in Failures(rows, bucketHash, now)
      <==> exists row :: row in rows && InWindow(row, bucketHash, now) && IsFailure(row) && row.at.value == t
  {
    if rows != [] {
      var n := |rows| - 1;
      assert rows == rows[..n] + [rows[n]];
      FailureTimes(rows[..n], bucketHash, now, t);
      if InWindow(rows[n], bucketHash, now) && IsFailure(rows[n]) && rows[n].at.value == t {
        assert rows[n] in rows;
      }
    }
  }

  // ---- the order of the rows does not matter ----

  lemma CountedTimes(rows: seq<Row>, bucketHash: Option<string>, now: int, t: int)
    ensures t in Counted(rows, bucketHash, now)
      <==> exists row :: row in rows && CountsRow(rows, bucketHash, now, row) && row.at.value == t
  {
    FailureTimes(rows, bucketHash, now, t);
    LastSuccessIsBound(rows, bucketHash, now, t);
  }

  lemma OrderDoesNotMatter(a: seq<Row>, b: seq<Row>, bucketHash: Option<string>, now: int)
    requires multiset(a) == multiset(b)
    ensures Verdict(a, bucketHash, now) == Verdict(b, bucketHash, now)
  {
    forall row ensures row in a <==> row in b {
      assert row in a <==> row in multiset(a);
      assert row in b <==> row in multiset(b);
    }
    var x, y := Counted(a, bucketHash, now), Counted(b, bucketHash, now);
    forall row: Row ensures CountsRow(a, bucketHash, now, row) == CountsRow(b, bucketHash, now, row) {}
    var p := (row: Row) => CountsRow(a, bucketHash, now, row);
    var q := (row: Row) => CountsRow(b, bucketHash, now, row);
    BlockedIffFiveCount(a, bucketHash, now);
    BlockedIffFiveCount(b, bucketHash, now);
    CountPermutation(p, a, b);
    CountSame(p, q, b);
    forall t ensures t in x <==> t in y {
      CountedTimes(a, bucketHash, now, t);
      CountedTimes(b, bucketHash, now, t);
    }
    if Verdict(a, bucketHash, now).Blocked? {
      assert Min(x) in y && Min(y) in x;
    }
  }

  // ---- time passes over fixed rows ----

  lemma {:induction false} FailuresLater(rows: seq<Row>, bucketHash: Option<string>, now: int, later: int)
    requires now <= later
    ensures Failures(rows, bucketHash, later)
         == Later(Failures(rows, bucketHash, now), later - LOGIN_FAILURE_WINDOW_SECONDS - 1)
  {
    if rows != [] {
      var n := |rows| - 1;
      FailuresLater(rows[..n], bucketHash, now, later);
      var fs := Failures(rows[..n], bucketHash, now);
      if InWindow(rows[n], bucketHash, now) && IsFailure(rows[n]) {
        assert (fs + [rows[n].at.value])[..|fs|] == fs;
      } else {
        assert Failures(rows, bucketHash, now) == fs;
      }
    }
  }

  lemma {:induction false} LaterTwice(times: seq<int>, a: int, b: int)
    ensures Later(Later(times, a), b) == Later(times, Max(a, b))
  {
    if times != [] {
      var n := |times| - 1;
      LaterTwice(times[..n], a, b);
      var rest := Later(times[..n], a);
      if times[n] > a {
        assert (rest + [times[n]])[..|rest|] == rest;
      } else {
        assert Later(times, a) == rest;
      }
    }
  }

  lemma {:induction false} LastSuccessLater(rows: seq<Row>, bucketHash: Option<string>, now: int, later: int)
    requires now <= later
    ensures LastSuccess(rows, bucketHash, later) <= LastSuccess(rows, bucketHash, now)
    ensures Max(LastSuccess(rows, bucketHash, later), later - LOGIN_FAILURE_WINDOW_SECONDS - 1)
         == Max(LastSuccess(rows, bucketHash, now), later - LOGIN_FAILURE_WINDOW_SECONDS - 1)
  {
    if rows != [] {
      LastSuccessLater(rows[..|rows| - 1], bucketHash, now, later);
    }
  }

  /** What counts later is what counts now and is still in the window: a success that leaves the window takes the
      failures it masked with it. */
  lemma CountedLater(rows: seq<Row>, bucketHash: Option<string>, now: int, later: int)
    requires now <= later
    ensures Counted(rows, bucketHash, later)
         == Later(Counted(rows, bucketHash, now), later - LOGIN_FAILURE_WINDOW_SECONDS - 1)
  {
    var cut := later - LOGIN_FAILURE_WINDOW_SECONDS - 1;
    var fs := Failures(rows, bucketHash, now);
    FailuresLater(rows, bucketHash, now, later);
    LastSuccessLater(rows, bucketHash, now, later);
    LaterTwice(fs, cut, LastSuccess(rows, bucketHash, later));
    LaterTwice(fs, LastSuccess(rows, bucketHash, now), cut);
  }

  lemma {:induction false} LaterLength(times: seq<int>, bound: int)
    ensures |Later(times, bound)| <= |times|
    ensures |Later(times, bound)| == |times| <==> forall i :: 0 <= i < |times| ==> times[i] > bound
  {
    if times != [] {
      LaterLength(times[..|times| - 1], bound);
    }
  }

  lemma AllRemainIffOldestDoes(times: seq<int>, cut: int)
    requires times != []
    ensures |Later(times, cut)| <= |times|
    ensures |Later(times, cut)| == |times| <==> Min(times) > cut
  {
    LaterLength(times, cut);
    var m := Min(times);
    if m <= cut {
      var i :| 0 <= i < |times| && times[i] == m;
    } else {
      forall i | 0 <= i < |times| ensures times[i] > cut { assert times[i] in times; }
    }
  }

  lemma OnceAllowedStaysAllowed(rows: seq<Row>, bucketHash: Option<string>, now: int, later: int)
    requires now <= later && Verdict(rows, bucketHash, now).Allowed?
    ensures Verdict(rows, bucketHash, later).Allowed?
  {
    CountedLater(rows, bucketHash, now, later);
    LaterLength(Counted(rows, bucketHash, now), later - LOGIN_FAILURE_WINDOW_SECONDS - 1);
  }

  /** Every instant before `now + retryAfterSeconds` is still blocked. The promise is one second short: a row at exactly
      the window start still counts, so when five failures count the first allowed instant is 601 seconds after the
      oldest of them, not 600. */
  lemma BlockedUntilOldestLeaves(rows: seq<Row>, bucketHash: Option<string>, now: int, later: int)
    requires now <= later && Verdict(rows, bucketHash, now).Blocked?
    ensures later < now + Verdict(rows, bucketHash, now).retryAfterSeconds ==> Verdict(rows, bucketHash, later).Blocked?
    ensures later <= Min(Counted(rows, bucketHash, now)) + 600 ==> Verdict(rows, bucketHash, later).Blocked?
    ensures |Counted(rows, bucketHash, now)| == 5 ==>
      (Verdict(rows, bucketHash, later).Blocked? <==> later <= Min(Counted(rows, bucketHash, now)) + 600)
  {
    var counted := Counted(rows, bucketHash, now);
    var cut := later - LOGIN_FAILURE_WINDOW_SECONDS - 1;
    CountedLater(rows, bucketHash, now, later);
    AllRemainIffOldestDoes(counted, cut);
    OldestInWindow(rows, bucketHash, now);
  }

  lemma OldestInWindow(rows: seq<Row>, bucketHash: Option<string>, now: int)
    requires Counted(rows, bucketHash, now) != []
    ensures Min(Counted(rows, bucketHash, now)) >= now - LOGIN_FAILURE_WINDOW_SECONDS
  {
    CountedTimes(rows, bucketHash, now, Min(Counted(rows, bucketHash, now)));
  }

  /** A client that waits exactly the promised seconds is blocked again exactly when five of the counted failures are
      later than the very start of the window: always, unless the oldest one was just leaving it. */
  lemma RetryAfterIsOneSecondShort(rows: seq<Row>, bucketHash: Option<string>, now: int, later: int)
    requires Verdict(rows, bucketHash, now).Blocked?
    requires later == now + Verdict(rows, bucketHash, now).retryAfterSeconds
    ensures Verdict(rows, bucketHash, later).Blocked?
      <==> |Later(Counted(rows, bucketHash, now), now - LOGIN_FAILURE_WINDOW_SECONDS)| >= 5
    ensures Min(Counted(rows, bucketHash, now)) > now - LOGIN_FAILURE_WINDOW_SECONDS ==>
      Verdict(rows, bucketHash, later).Blocked?
  {
    OldestInWindow(rows, bucketHash, now);
    BlockedLaterIff(rows, bucketHash, now, later);
    StillCountedAtThePromise(Counted(rows, bucketHash, now), now, later);
  }

  lemma StillCountedAtThePromise(counted: seq<int>, now: int, later: int)
    requires |counted| >= 5 && Min(counted) >= now - LOGIN_FAILURE_WINDOW_SECONDS
    requires later == now + Max(Min(counted) + LOGIN_FAILURE_WINDOW_SECONDS - now, 1)
    ensures var start, cut := now - LOGIN_FAILURE_WINDOW_SECONDS, later - LOGIN_FAILURE_WINDOW_SECONDS - 1;
      && (|Later(counted, cut)| >= 5 <==> |Later(counted, start)| >= 5)
      && (Min(counted) > start ==> |Later(counted, cut)| >= 5)
  {
    var start, cut := now - LOGIN_FAILURE_WINDOW_SECONDS, later - LOGIN_FAILURE_WINDOW_SECONDS - 1;
    if Min(counted) > start {
      assert cut == Min(counted) - 1;
      AllRemainIffOldestDoes(counted, start);
      AllRemainIffOldestDoes(counted, cut);
    } else {
      assert cut == start;
    }
  }

  lemma BlockedLaterIff(rows: seq<Row>, bucketHash: Option<string>, now: int, later: int)
    requires now <= later
    ensures Verdict(rows, bucketHash, later).Blocked?
      <==> |Later(Counted(rows, bucketHash, now), later - LOGIN_FAILURE_WINDOW_SECONDS - 1)| >= 5
  {
    CountedLater(rows, bucketHash, now, later);
  }

  /** Five failures at one second: the promise of 600 seconds is given at once, and after 600 seconds the client is
      blocked. */
  lemma ABrokenPromise(at: int, bucketHash: Option<string>)
    requires at > 0
    ensures Verdict(FiveRows(at, bucketHash), bucketHash, at) == Blocked(600)
    ensures Verdict(FiveRows(at, bucketHash), bucketHash, at + 600).Blocked?
  {
    var rows := FiveRows(at, bucketHash);
    FiveRowsCount(at, bucketHash, at);
    FiveRowsCount(at, bucketHash, at + 600);
    CountedTimes(rows, bucketHash, at, Min(Counted(rows, bucketHash, at)));
  }
}
