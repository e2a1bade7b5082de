/**
 * The signed session cookies of the admin UI and the map of revoked sessions that is pruned as time passes.
 *
 * `SessionStore` holds the map that all requests share and is updated in place. Its methods are proved
 * against the functions above it; the theorems compare whole runs of those functions with a store that
 * never forgets a revocation.
 */
module Session {
  import opened Sequences
  import opened Text
  import opened Base64Url

  const SESSION_TTL_SECONDS := 8 * 60 * 60
  const SESSION_AUDIENCE := "kor-travel-geo-ui"
  const SESSION_VERSION := 1
  const SESSION_SECRET_MIN_LENGTH := 32
  const SESSION_CLOCK_SKEW_SECONDS := 60
  const MAX_COOKIE_VALUE_LENGTH := 2048

  datatype Payload = Payload(aud: string, exp: int, fp: string, iat: int, sid: string, sub: string, v: int)

  /** The parts of the platform that the code calls: HMAC-SHA-256 of a text under a secret, and JSON over
      UTF-8. `fromJson` is `None` when the text does not parse to an object with fields of these types. */
  datatype Platform = Platform(
    hmac: (string, string) -> seq<Byte>,
    toJson: Payload -> seq<Byte>,
    fromJson: seq<Byte> -> Option<Payload>
  )

  /** What the platform promises: digests that are not empty, and JSON that reads back as it was written. */
  ghost predicate Sound(h: Platform) {
    && (forall text, secret :: h.hmac(text, secret) != [])
    && (forall p :: h.toJson(p) != [] && h.fromJson(h.toJson(p)) == Some(p))
  }

  /** The two settings after trimming: the secret, and the administrator's name with its default. */
  datatype Env = Env(secret: Option<string>, admin: string)

  predicate Strong(env: Env) {
    env.secret.Some? && |env.secret.value| >= SESSION_SECRET_MIN_LENGTH
  }

  function Seconds(nowMs: int): int { nowMs / 1000 }

  function Sign(h: Platform, text: string, secret: string): string {
    Encode(h.hmac(text, secret))
  }

  function Fingerprint(h: Platform, userAgent: string, secret: string): string {
    Sign(h, "fingerprint:" + if |userAgent| > 300 then userAgent[..300] else userAgent, secret)
  }

  function NewPayload(h: Platform, userAgent: string, env: Env, nowMs: int, sidBytes: seq<Byte>): Payload
    requires Strong(env)
  {
    Payload(SESSION_AUDIENCE, Seconds(nowMs) + SESSION_TTL_SECONDS, Fingerprint(h, userAgent, env.secret.value),
            Seconds(nowMs), Encode(sidBytes), env.admin, SESSION_VERSION)
  }

  /** `None` is the error thrown when the secret is missing or short. */
  function CreateCookie(h: Platform, userAgent: string, env: Env, nowMs: int, sidBytes: seq<Byte>): Option<string> {
    if !Strong(env) then None
    else
      var part := Encode(h.toJson(NewPayload(h, userAgent, env, nowMs, sidBytes)));
      Some(part + "." + Sign(h, part, env.secret.value))
  }

  predicate HasShape(p: Payload) {
    && p.aud == SESSION_AUDIENCE
    && IsBase64UrlString(p.fp)
    && IsBase64UrlString(p.sid)
    && p.v == SESSION_VERSION
  }

  function DecodeSigned(h: Platform, value: string, secret: string): Option<Payload> {
    if |value| > MAX_COOKIE_VALUE_LENGTH then None
    else
      var parts := Split(value, '.');
      if |parts| != 2 || !IsBase64UrlString(parts[0]) || !IsBase64UrlString(parts[1]) then None
      else if parts[1] != Sign(h, parts[0], secret) then None
      else
        match Decode(parts[0])
        case None => None
        case Some(bytes) =>
          match h.fromJson(bytes)
          case None => None
          case Some(p) => if HasShape(p) then Some(p) else None
  }

  /** An absent or empty cookie and a weak secret are turned away before anything is decoded. */
  function Decoded(h: Platform, value: Option<string>, env: Env): Option<Payload> {
    if value.None? || value.value == "" || !Strong(env) then None
    else DecodeSigned(h, value.value, env.secret.value)
  }

  /** The checks of a payload that come before the revocation map is consulted. */
  predicate InForce(p: Payload, env: Env, now: int) {
    && p.v == SESSION_VERSION && p.aud == SESSION_AUDIENCE
    && p.sub == env.admin
    && p.iat <= now + SESSION_CLOCK_SKEW_SECONDS
    && p.exp > now
    && p.exp - p.iat <= SESSION_TTL_SECONDS + SESSION_CLOCK_SKEW_SECONDS
  }

  function Prune(m: map<string, int>, now: int): map<string, int> {
    map sid | sid in m && m[sid] > now :: m[sid]
  }

  predicate Revokes(h: Platform, value: Option<string>, env: Env, nowMs: int) {
    var p := Decoded(h, value, env);
    p.Some? && p.value.exp > Seconds(nowMs)
  }

  function RevokeNext(h: Platform, m: map<string, int>, value: Option<string>, env: Env, nowMs: int): map<string, int> {
    if Revokes(h, value, env, nowMs) then
      var p := Decoded(h, value, env).value;
      Prune(m, Seconds(nowMs))[p.sid := p.exp]
    else m
  }

  predicate Verifies(h: Platform, m: map<string, int>, value: Option<string>, env: Env, nowMs: int, userAgent: string) {
    var p := Decoded(h, value, env);
    && p.Some?
    && InForce(p.value, env, Seconds(nowMs))
    && p.value.sid !in Prune(m, Seconds(nowMs))
    && p.value.fp == Fingerprint(h, userAgent, env.secret.value)
  }

  function VerifyNext(h: Platform, m: map<string, int>, value: Option<string>, env: Env, nowMs: int): map<string, int> {
    var p := Decoded(h, value, env);
    if p.Some? && InForce(p.value, env, Seconds(nowMs)) then Prune(m, Seconds(nowMs)) else m
  }

  // ---- the store that requests share ----

  class SessionStore {
    var revoked: map<string, int>

    constructor ()
      ensures revoked == map[]
    {
      revoked := map[];
    }

    method CleanupRevokedSessions(now: int)
      modifies this
      ensures revoked == Prune(old(revoked), now)
    {
      var todo := revoked.Keys;
      while todo != {}
        invariant todo <= old(revoked).Keys
        invariant forall sid :: sid in revoked <==> sid in old(revoked) && (sid in todo || old(revoked)[sid] > now)
        invariant forall sid :: sid in revoked ==> revoked[sid] == old(revoked)[sid]
        decreases |todo|
      {
        var sid :| sid in todo;
        if revoked[sid] <= now {
          revoked := revoked - {sid};
        }
        todo := todo - {sid};
      }
    }

    method SessionIsRevoked(sid: string, now: int) returns (answer: bool)
      modifies this
      ensures revoked == Prune(old(revoked), now)
      ensures answer == (sid in Prune(old(revoked), now))
    {
      CleanupRevokedSessions(now);
      answer := sid in revoked;
    }

    method RevokeSessionCookieValue(h: Platform, value: Option<string>, env: Env, nowMs: int) returns (done: bool)
      modifies this
      ensures done == Revokes(h, value, env, nowMs)
      ensures revoked == RevokeNext(h, old(revoked), value, env, nowMs)
    {
      if value.None? || value.value == "" || !Strong(env) {
        return false;
      }
      var payload := DecodeSigned(h, value.value, env.secret.value);
      var now := Seconds(nowMs);
      if payload.Some? && payload.value.exp > now && IsBase64UrlString(payload.value.sid) {
        CleanupRevokedSessions(now);
        revoked := revoked[payload.value.sid := payload.value.exp];
        return true;
      }
      return false;
    }

    method VerifySessionCookieValue(h: Platform, value: Option<string>, env: Env, nowMs: int, userAgent: string)
      returns (accepted: bool)
      modifies this
      ensures accepted == Verifies(h, old(revoked), value, env, nowMs, userAgent)
      ensures revoked == VerifyNext(h, old(revoked), value, env, nowMs)
    {
      if value.None? || value.value == "" || !Strong(env) {
        return false;
      }
      var payload := DecodeSigned(h, value.value, env.secret.value);
      if payload.None? {
        return false;
      }
      var p, now := payload.value, Seconds(nowMs);
      if p.v != SESSION_VERSION || p.aud != SESSION_AUDIENCE {
        return false;
      }
      if p.sub != env.admin {
        return false;
      }
      if p.iat > now + SESSION_CLOCK_SKEW_SECONDS {
        return false;
      }
      if p.exp <= now {
        return false;
      }
      if p.exp - p.iat > SESSION_TTL_SECONDS + SESSION_CLOCK_SKEW_SECONDS {
        return false;
      }
      var gone := SessionIsRevoked(p.sid, now);
      if gone {
        return false;
      }
      return p.fp == Fingerprint(h, userAgent, env.secret.value);
    }
  }

  // ---- an issued cookie reads back and is accepted for its lifetime ----

  lemma SignatureIsUrlText(h: Platform, text: string, secret: string)
    requires Sound(h)
    ensures IsBase64UrlString(Sign(h, text, secret))
  {
    RoundTrip(h.hmac(text, secret));
  }

  lemma UrlTextHasNoDot(v: string)
    requires IsBase64UrlString(v)
    ensures '.' !in v
  {
  }

  /** A signed text splits into the text and its signature, and the signature check passes. */
  lemma SignedTextDecodes(h: Platform, part: string, secret: string)
    requires Sound(h) && IsBase64UrlString(part)
    ensures var value := part + "." + Sign(h, part, secret);
      DecodeSigned(h, value, secret)
      == if |value| > MAX_COOKIE_VALUE_LENGTH || Decode(part).None? then None
         else
           var p := h.fromJson(Decode(part).value);
           if p.Some? && HasShape(p.value) then p else None
  {
    var signature := Sign(h, part, secret);
    SignatureIsUrlText(h, part, secret);
    UrlTextHasNoDot(part);
    UrlTextHasNoDot(signature);
    SplitAtFirst(part, '.', signature);
    SplitWhole(signature, '.');
    assert part + "." + signature == part + ['.'] + signature;
    assert Split(part + "." + signature, '.') == [part, signature];
  }

  lemma NewPayloadHasShape(h: Platform, userAgent: string, env: Env, nowMs: int, sidBytes: seq<Byte>)
    requires Sound(h) && Strong(env) && sidBytes != []
    ensures HasShape(NewPayload(h, userAgent, env, nowMs, sidBytes))
  {
    RoundTrip(sidBytes);
    SignatureIsUrlText(h, "fingerprint:" + if |userAgent| > 300 then userAgent[..300] else userAgent, env.secret.value);
  }

  /** The value is a text of the URL alphabet with its signature behind a dot, and the text holds the payload. */
  ghost predicate SignedFor(h: Platform, value: string, secret: string, p: Payload, part: string) {
    && (forall i :: 0 <= i < |part| ==> IsUrlChar(part[i]))
    && value == part + "." + Encode(h.hmac(part, secret))
    && Decode(part).Some? && h.fromJson(Decode(part).value) == Some(p)
  }

  lemma {:induction false} SplitInTwo(value: string, sep: char)
    requires |Split(value, sep)| == 2
    ensures value == Split(value, sep)[0] + [sep] + Split(value, sep)[1]
  {
    JoinSplit(value, sep);
    var parts := Split(value, sep);
    assert Join(parts[1..], [sep]) == parts[1];
  }

  /** Nothing decodes but what was signed: a value of at most 2048 characters that is a text and its signature under the
      secret, whose payload is for this audience and version and has an id and a fingerprint of the URL alphabet. */
  lemma DecodedIffSigned(h: Platform, value: string, secret: string, p: Payload)
    requires Sound(h)
    ensures DecodeSigned(h, value, secret) == Some(p)
      <==>
      && |value| <= 2048 && p.aud == "kor-travel-geo-ui" && p.v == 1
      && IsBase64UrlString(p.fp) && IsBase64UrlString(p.sid)
      && exists part :: SignedFor(h, value, secret, p, part)
  {
    if DecodeSigned(h, value, secret) == Some(p) {
      SplitInTwo(value, '.');
      var part := Split(value, '.')[0];
      assert Split(value, '.')[1] == Encode(h.hmac(part, secret));
      assert SignedFor(h, value, secret, p, part);
    }
    if part :| SignedFor(h, value, secret, p, part) {
      SignedTextDecodes(h, part, secret);
    }
  }

  /** A cookie that fits the length limit decodes, under the secret it was signed with, to the payload it was made
      from. */
  lemma IssuedCookieDecodes(h: Platform, userAgent: string, env: Env, nowMs: int, sidBytes: seq<Byte>)
    requires Sound(h) && Strong(env) && sidBytes != []
    ensures var value := CreateCookie(h, userAgent, env, nowMs, sidBytes);
      value.Some? && value.value != ""
      && DecodeSigned(h, value.value, env.secret.value)
         == if |value.value| <= MAX_COOKIE_VALUE_LENGTH then Some(NewPayload(h, userAgent, env, nowMs, sidBytes))
            else None
  {
    var p := NewPayload(h, userAgent, env, nowMs, sidBytes);
    RoundTrip(h.toJson(p));
    SignedTextDecodes(h, Encode(h.toJson(p)), env.secret.value);
    NewPayloadHasShape(h, userAgent, env, nowMs, sidBytes);
  }

  /** An issued cookie is accepted, for the settings and user agent it was issued to, exactly from a minute before
      `iat` to the last second before `exp`, unless it is revoked or too long. */
  lemma AcceptedForItsLifetime(h: Platform, m: map<string, int>, userAgent: string, env: Env, issuedMs: int,
                               sidBytes: seq<Byte>, nowMs: int)
    requires Sound(h) && Strong(env) && sidBytes != []
    ensures var value := CreateCookie(h, userAgent, env, issuedMs, sidBytes);
      Verifies(h, m, value, env, nowMs, userAgent)
      <==>
      && |value.value| <= MAX_COOKIE_VALUE_LENGTH
      && Seconds(issuedMs) - 60 <= Seconds(nowMs) < Seconds(issuedMs) + 28800
      && !(Encode(sidBytes) in m && m[Encode(sidBytes)] > Seconds(nowMs))
  {
    IssuedCookieDecodes(h, userAgent, env, issuedMs, sidBytes);
  }

  lemma NothingIsInNothing(h: Platform, secret: string)
    ensures DecodeSigned(h, "", secret) == None
  {
  }

  /** What acceptance means, read off the payload: only a signed cookie of this administrator, issued no more than a
      minute ahead, not expired, of a lifetime of at most eight hours and a minute, not revoked under an expiry still
      ahead, and presented by the user agent it was issued to. */
  lemma AcceptedIff(h: Platform, m: map<string, int>, value: Option<string>, env: Env, nowMs: int, userAgent: string)
    requires Sound(h)
    ensures Verifies(h, m, value, env, nowMs, userAgent)
      <==>
      && value.Some? && env.secret.Some? && |env.secret.value| >= 32
      && var p := DecodeSigned(h, value.value, env.secret.value);
        p.Some? && Acceptable(h, m, p.value, env, nowMs, userAgent)
  {
    if value.Some? && env.secret.Some? {
      NothingIsInNothing(h, env.secret.value);
    }
  }

  predicate Acceptable(h: Platform, m: map<string, int>, p: Payload, env: Env, nowMs: int, userAgent: string)
    requires env.secret.Some?
  {
    var now, secret := nowMs / 1000, env.secret.value;
    && p.sub == env.admin && p.iat - 60 <= now < p.exp && p.exp <= p.iat + 28860
    && (p.sid in m ==> m[p.sid] <= now)
    && p.fp == Encode(h.hmac("fingerprint:" + (if |userAgent| <= 300 then userAgent else userAgent[..300]), secret))
  }

  /** Only a signed cookie that has not expired is revoked, under its own id and expiry; it is then turned down until it
      has. */
  lemma RevokedIff(h: Platform, m: map<string, int>, value: Option<string>, env: Env, nowMs: int)
    requires Sound(h)
    ensures Revokes(h, value, env, nowMs)
      <==>
      && value.Some? && env.secret.Some? && |env.secret.value| >= 32
      && var p := DecodeSigned(h, value.value, env.secret.value);
        p.Some? && p.value.exp > nowMs / 1000
    ensures Revokes(h, value, env, nowMs) ==>
      var p := DecodeSigned(h, value.value, env.secret.value);
      p.Some? && p.value.sid in RevokeNext(h, m, value, env, nowMs)
      && RevokeNext(h, m, value, env, nowMs)[p.value.sid] == p.value.exp
  {
    if value.Some? && env.secret.Some? {
      NothingIsInNothing(h, env.secret.value);
    }
  }

  /** A cookie that is no text with its signature behind it is neither accepted nor revoked. */
  lemma NothingUnsignedCounts(h: Platform, m: map<string, int>, value: string, env: Env, nowMs: int, userAgent: string)
    requires Sound(h)
    requires env.secret.Some? ==> forall part :: value != part + "." + Encode(h.hmac(part, env.secret.value))
    ensures !Verifies(h, m, Some(value), env, nowMs, userAgent) && !Revokes(h, Some(value), env, nowMs)
  {
    if env.secret.Some? {
      var decoded := DecodeSigned(h, value, env.secret.value);
      if decoded.Some? {
        DecodedIffSigned(h, value, env.secret.value, decoded.value);
      }
    }
  }

  // ---- runs ----

  datatype Event =
    | Create(userAgent: string, env: Env, nowMs: int, sidBytes: seq<Byte>)
    | Verify(value: Option<string>, env: Env, nowMs: int, userAgent: string)
    | Revoke(value: Option<string>, env: Env, nowMs: int)
    | Cleanup(nowMs: int)

  function Next(h: Platform, m: map<string, int>, e: Event): map<string, int> {
    match e
    case Create(_, _, _, _) => m
    case Verify(value, env, nowMs, _) => VerifyNext(h, m, value, env, nowMs)
    case Revoke(value, env, nowMs) => RevokeNext(h, m, value, env, nowMs)
    case Cleanup(nowMs) => Prune(m, Seconds(nowMs))
  }

  /** The code's map after a run from an empty store. */
  function After(h: Platform, es: seq<Event>): map<string, int> {
    if es == [] then map[] else Next(h, After(h, es[..|es| - 1]), es[|es| - 1])
  }

  /** Every session id that a successful revocation of the run ever named. */
  function EverRevoked(h: Platform, es: seq<Event>): set<string> {
    if es == [] then {}
    else
      var e := es[|es| - 1];
      EverRevoked(h, es[..|es| - 1])
      + if e.Revoke? && Revokes(h, e.value, e.env, e.nowMs) then {Decoded(h, e.value, e.env).value.sid} else {}
  }

  /** The verdict of a store that keeps every revocation for ever. */
  predicate FullVerdict(h: Platform, ever: set<string>, e: Event)
    requires e.Verify?
  {
    var p := Decoded(h, e.value, e.env);
    && p.Some?
    && InForce(p.value, e.env, Seconds(e.nowMs))
    && p.value.sid !in ever
    && p.value.fp == Fingerprint(h, e.userAgent, e.env.secret.value)
  }

  predicate Verdict(h: Platform, m: map<string, int>, e: Event)
    requires e.Verify?
  {
    Verifies(h, m, e.value, e.env, e.nowMs, e.userAgent)
  }

  ghost predicate ClockNeverGoesBack(es: seq<Event>) {
    forall i, j :: 0 <= i < j < |es| ==> es[i].nowMs <= es[j].nowMs
  }

  /** The expiry that the last successful revocation of each id recorded. */
  function LastRecorded(h: Platform, es: seq<Event>): map<string, int> {
    if es == [] then map[]
    else
      var e, before := es[|es| - 1], LastRecorded(h, es[..|es| - 1]);
      if e.Revoke? && Revokes(h, e.value, e.env, e.nowMs) then
        before[Decoded(h, e.value, e.env).value.sid := Decoded(h, e.value, e.env).value.exp]
      else before
  }

  lemma {:induction false} LastRecordedKeys(h: Platform, es: seq<Event>)
    ensures LastRecorded(h, es).Keys == EverRevoked(h, es)
  {
    if es != [] {
      LastRecordedKeys(h, es[..|es| - 1]);
    }
  }

  lemma PruneAgain(m: map<string, int>, earlier: int, now: int)
    requires earlier <= now
    ensures Prune(Prune(m, earlier), now) == Prune(m, now)
  {
  }

  lemma PruneAfterUpdate(a: map<string, int>, b: map<string, int>, sid: string, exp: int, now: int)
    requires Prune(a, now) == Prune(b, now)
    ensures Prune(a[sid := exp], now) == Prune(b[sid := exp], now)
  {
    var x, y := Prune(a[sid := exp], now), Prune(b[sid := exp], now);
    forall k ensures k in x <==> k in y {
      assert k in Prune(a, now) <==> k in Prune(b, now);
    }
    forall k | k in x ensures x[k] == y[k] {
      assert k != sid ==> k in Prune(a, now) && Prune(a, now)[k] == Prune(b, now)[k];
    }
  }

  lemma NextKeepsUnexpired(h: Platform, m: map<string, int>, last: map<string, int>, e: Event, now: int)
    requires Seconds(e.nowMs) <= now
    requires Prune(m, Seconds(e.nowMs)) == Prune(last, Seconds(e.nowMs))
    requires Prune(m, now) == Prune(last, now)
    ensures e.Revoke? && Revokes(h, e.value, e.env, e.nowMs) ==>
      var p := Decoded(h, e.value, e.env).value;
      Prune(Next(h, m, e), now) == Prune(last[p.sid := p.exp], now)
    ensures !(e.Revoke? && Revokes(h, e.value, e.env, e.nowMs)) ==> Prune(Next(h, m, e), now) == Prune(last, now)
  {
    PruneAgain(m, Seconds(e.nowMs), now);
    if e.Revoke? && Revokes(h, e.value, e.env, e.nowMs) {
      var p := Decoded(h, e.value, e.env).value;
      PruneAfterUpdate(Prune(m, Seconds(e.nowMs)), last, p.sid, p.exp, now);
    }
  }

  /** Pruning loses only entries that have expired: at any later second the map holds exactly the recorded ids
      whose recorded expiry is still ahead. */
  lemma {:induction false} MapTracksUnexpired(h: Platform, es: seq<Event>, now: int)
    requires ClockNeverGoesBack(es)
    requires es != [] ==> Seconds(es[|es| - 1].nowMs) <= now
    ensures Prune(After(h, es), now) == Prune(LastRecorded(h, es), now)
  {
    if es != [] {
      var before, e := es[..|es| - 1], es[|es| - 1];
      if before != [] {
        assert es[|before| - 1].nowMs <= e.nowMs;
      }
      MapTracksUnexpired(h, before, Seconds(e.nowMs));
      MapTracksUnexpired(h, before, now);
      NextKeepsUnexpired(h, After(h, before), LastRecorded(h, before), e, now);
    }
  }

  /** For any run, forged cookies and reused ids included: the pruned map and the full set disagree on a verdict
      exactly when the full set turns down a cookie only because its id was revoked under an expiry already past. */
  lemma VerdictsDifferIff(h: Platform, es: seq<Event>, e: Event)
    requires e.Verify? && ClockNeverGoesBack(es + [e])
    ensures var p, last := Decoded(h, e.value, e.env), LastRecorded(h, es);
      Verdict(h, After(h, es), e) != FullVerdict(h, EverRevoked(h, es), e)
      <==>
      && FullVerdict(h, {}, e)
      && p.value.sid in last && last[p.value.sid] <= Seconds(e.nowMs)
  {
    assert forall i :: 0 <= i < |es| ==> (es + [e])[i] == es[i];
    if es != [] {
      assert (es + [e])[|es| - 1].nowMs <= (es + [e])[|es|].nowMs;
    }
    MapTracksUnexpired(h, es, Seconds(e.nowMs));
    LastRecordedKeys(h, es);
    var p := Decoded(h, e.value, e.env);
    if p.Some? {
      var sid, now := p.value.sid, Seconds(e.nowMs);
      assert sid in Prune(After(h, es), now) <==> sid in Prune(LastRecorded(h, es), now);
    }
  }

  // ---- requests that use the map in another order than they read the clock ----

  /** The second as of which an event prunes the map, if it does. */
  function PruneSecond(h: Platform, e: Event): Option<int> {
    match e
    case Create(_, _, _, _) => None
    case Verify(value, env, nowMs, _) =>
      var p := Decoded(h, value, env);
      if p.Some? && InForce(p.value, env, Seconds(nowMs)) then Some(Seconds(nowMs)) else None
    case Revoke(value, env, nowMs) => if Revokes(h, value, env, nowMs) then Some(Seconds(nowMs)) else None
    case Cleanup(nowMs) => Some(Seconds(nowMs))
  }

  predicate RevokesId(h: Platform, e: Event, sid: string) {
    e.Revoke? && Revokes(h, e.value, e.env, e.nowMs) && Decoded(h, e.value, e.env).value.sid == sid
  }

  predicate Drops(h: Platform, last: map<string, int>, e: Event, sid: string) {
    sid in last && PruneSecond(h, e).Some? && last[sid] <= PruneSecond(h, e).value
  }

  /** Since the last revocation of the id an event pruned the map as of a second at or past the recorded expiry. */
  predicate PrunedAway(h: Platform, es: seq<Event>, sid: string) {
    if es == [] then false
    else
      var before, e := es[..|es| - 1], es[|es| - 1];
      !RevokesId(h, e, sid) && (PrunedAway(h, before, sid) || Drops(h, LastRecorded(h, before), e, sid))
  }

  /** It happens: a revocation, and then a request that has read a clock at or past the expiry it recorded. */
  lemma LaterClockPrunesAway(h: Platform, es: seq<Event>, e: Event, later: Event, sid: string)
    requires RevokesId(h, e, sid) && !later.Revoke? && PruneSecond(h, later).Some?
    requires Decoded(h, e.value, e.env).value.exp <= PruneSecond(h, later).value
    ensures PrunedAway(h, es + [e] + [later], sid)
  {
    var revoked := es + [e];
    assert revoked[..|es|] == es && (revoked + [later])[..|revoked|] == revoked;
    assert LastRecorded(h, revoked)[sid] == Decoded(h, e.value, e.env).value.exp;
  }

  function Kept(h: Platform, es: seq<Event>): map<string, int> {
    map sid | sid in LastRecorded(h, es) && !PrunedAway(h, es, sid) :: LastRecorded(h, es)[sid]
  }

  /** For every run, in whatever order the clock was read: the map holds exactly the recorded ids that were not pruned
      away. */
  lemma {:induction false} MapIsWhatWasKept(h: Platform, es: seq<Event>)
    ensures After(h, es) == Kept(h, es)
  {
    if es != [] {
      var before, e := es[..|es| - 1], es[|es| - 1];
      MapIsWhatWasKept(h, before);
      KeptAfterOne(h, before, e);
      assert es == before + [e];
    }
  }

  lemma KeptAfterOne(h: Platform, before: seq<Event>, e: Event)
    ensures Next(h, Kept(h, before), e) == Kept(h, before + [e])
  {
    assert (before + [e])[..|before|] == before;
    var m, next, kept := Kept(h, before), Next(h, Kept(h, before), e), Kept(h, before + [e]);
    var last := LastRecorded(h, before);
    forall sid ensures sid in next <==> sid in kept {
      if !RevokesId(h, e, sid) {
        assert sid in next <==> sid in m && !Drops(h, last, e, sid);
      }
    }
  }

  /** For every run, in whatever order the clock was read, the pruned map and the full set disagree exactly when the
      cookie passes every other check and its id was revoked under an expiry that is past by the request's own clock, or
      was pruned away by a request that had read a later one. */
  lemma VerdictsDifferInAnyOrderIff(h: Platform, es: seq<Event>, e: Event)
    requires e.Verify?
    ensures var p, last := Decoded(h, e.value, e.env), LastRecorded(h, es);
      Verdict(h, After(h, es), e) != FullVerdict(h, EverRevoked(h, es), e)
      <==>
      && FullVerdict(h, {}, e)
      && p.value.sid in last && (last[p.value.sid] <= Seconds(e.nowMs) || PrunedAway(h, es, p.value.sid))
  {
    MapIsWhatWasKept(h, es);
    LastRecordedKeys(h, es);
  }

  // ---- runs in which ids are fresh and signatures cannot be forged ----

  function Issued(h: Platform, es: seq<Event>): set<Payload> {
    if es == [] then {}
    else
      var e := es[|es| - 1];
      Issued(h, es[..|es| - 1])
      + if e.Create? && Strong(e.env) then {NewPayload(h, e.userAgent, e.env, e.nowMs, e.sidBytes)} else {}
  }

  /** Random ids never repeat, and whatever decodes was issued earlier in the run. */
  ghost predicate Genuine(h: Platform, es: seq<Event>) {
    es != [] ==> Genuine(h, es[..|es| - 1]) && HonestEvent(h, es[..|es| - 1], es[|es| - 1])
  }

  /** ... and the map is used in the order in which the clock was read. */
  ghost predicate Honest(h: Platform, es: seq<Event>) {
    Genuine(h, es) && ClockNeverGoesBack(es)
  }

  ghost predicate HonestEvent(h: Platform, before: seq<Event>, e: Event) {
    match e
    case Create(_, _, _, sidBytes) => forall p :: p in Issued(h, before) ==> p.sid != Encode(sidBytes)
    case Verify(value, env, _, _) => Decoded(h, value, env).Some? ==> Decoded(h, value, env).value in Issued(h, before)
    case Revoke(value, env, _) => Decoded(h, value, env).Some? ==> Decoded(h, value, env).value in Issued(h, before)
    case Cleanup(_) => true
  }

  lemma {:induction false} GenuinePrefix(h: Platform, es: seq<Event>, n: nat)
    requires Genuine(h, es) && n <= |es|
    ensures Genuine(h, es[..n])
  {
    if n < |es| {
      GenuinePrefix(h, es[..|es| - 1], n);
      assert es[..|es| - 1][..n] == es[..n];
    } else {
      assert es[..n] == es;
    }
  }

  ghost predicate SomeIssued(issued: set<Payload>, sid: string, exp: int) {
    exists p :: p in issued && p.sid == sid && p.exp == exp
  }

  lemma {:induction false} OneExpiryPerId(h: Platform, es: seq<Event>)
    requires Genuine(h, es)
    ensures forall p, q :: p in Issued(h, es) && q in Issued(h, es) && p.sid == q.sid ==> p == q
    ensures forall sid :: sid in LastRecorded(h, es) ==> SomeIssued(Issued(h, es), sid, LastRecorded(h, es)[sid])
  {
    if es != [] {
      var n := |es| - 1;
      OneExpiryPerId(h, es[..n]);
      var last := LastRecorded(h, es);
      forall sid | sid in last ensures SomeIssued(Issued(h, es), sid, last[sid]) {
        if sid in LastRecorded(h, es[..n]) && last[sid] == LastRecorded(h, es[..n])[sid] {
          assert SomeIssued(Issued(h, es[..n]), sid, last[sid]);
        } else {
          var p := Decoded(h, es[n].value, es[n].env).value;
          assert p in Issued(h, es) && p.sid == sid && p.exp == last[sid];
        }
      }
    }
  }

  /** A verified cookie and its id's revocation agree on the expiry. */
  lemma RecordedExpiryIsTheCookies(h: Platform, es: seq<Event>, k: nat)
    requires Genuine(h, es) && k < |es| && es[k].Verify?
    ensures var p, last := Decoded(h, es[k].value, es[k].env), LastRecorded(h, es[..k]);
      p.Some? && p.value.sid in last ==> last[p.value.sid] == p.value.exp
  {
    GenuinePrefix(h, es, k + 1);
    assert es[..k + 1][..k] == es[..k] && es[..k + 1][k] == es[k];
    OneExpiryPerId(h, es[..k]);
  }

  /** Pruning never changes a verdict: in every honest run each verification answers what the set of all
      revocations ever made would answer. */
  lemma PruningNeverChangesAVerdict(h: Platform, es: seq<Event>, k: nat)
    requires Honest(h, es) && k < |es| && es[k].Verify?
    ensures Verdict(h, After(h, es[..k]), es[k]) == FullVerdict(h, EverRevoked(h, es[..k]), es[k])
  {
    var before, e := es[..k], es[k];
    forall i, j | 0 <= i < j <= k ensures (before + [e])[i].nowMs <= (before + [e])[j].nowMs {
      assert (before + [e])[i] == es[i] && (before + [e])[j] == es[j];
    }
    VerdictsDifferIff(h, before, e);
    RecordedExpiryIsTheCookies(h, es, k);
  }

  /** Without that order it can: a verdict is wrong exactly when a revoked cookie, still in force by the request's own
      clock, was pruned away by a request that had read a clock at or past its expiry. */
  lemma WrongVerdictIff(h: Platform, es: seq<Event>, k: nat)
    requires Genuine(h, es) && k < |es| && es[k].Verify?
    ensures Verdict(h, After(h, es[..k]), es[k]) != FullVerdict(h, EverRevoked(h, es[..k]), es[k])
      <==> FullVerdict(h, {}, es[k]) && PrunedAway(h, es[..k], Decoded(h, es[k].value, es[k].env).value.sid)
  {
    VerdictsDifferInAnyOrderIff(h, es[..k], es[k]);
    RecordedExpiryIsTheCookies(h, es, k);
    if FullVerdict(h, {}, es[k]) {
      PrunedAwayWasRecorded(h, es[..k], Decoded(h, es[k].value, es[k].env).value.sid);
    }
  }

  lemma {:induction false} PrunedAwayWasRecorded(h: Platform, es: seq<Event>, sid: string)
    ensures PrunedAway(h, es, sid) ==> sid in LastRecorded(h, es)
  {
    if es != [] {
      PrunedAwayWasRecorded(h, es[..|es| - 1], sid);
    }
  }

  // ---- a run with a wrong verdict ----

  /** Two logins a second apart by the same browser. */
  function TwoLogins(userAgent: string, env: Env, t: int, sid1: seq<Byte>, sid2: seq<Byte>): seq<Event> {
    [Create(userAgent, env, t, sid1)] + [Create(userAgent, env, t + 1000, sid2)]
  }

  /** The first session is revoked at once. */
  function RevokeFirst(h: Platform, userAgent: string, env: Env, t: int, sid1: seq<Byte>): Event {
    Revoke(CreateCookie(h, userAgent, env, t, sid1), env, t + 1000)
  }

  /** The second session is seen in its last second. */
  function SeeSecond(h: Platform, userAgent: string, env: Env, t: int, sid2: seq<Byte>): Event {
    Verify(CreateCookie(h, userAgent, env, t + 1000, sid2), env, t + 28800000, userAgent)
  }

  function LateRun(h: Platform, userAgent: string, env: Env, t: int, sid1: seq<Byte>, sid2: seq<Byte>): seq<Event> {
    TwoLogins(userAgent, env, t, sid1, sid2) + [RevokeFirst(h, userAgent, env, t, sid1)]
    + [SeeSecond(h, userAgent, env, t, sid2)]
  }

  /** A request with the first session that read the clock a second before that, and uses the map after it. */
  function LateRequest(h: Platform, userAgent: string, env: Env, t: int, sid1: seq<Byte>): Event {
    Verify(CreateCookie(h, userAgent, env, t, sid1), env, t + 28799000, userAgent)
  }

  ghost predicate TwoSessions(h: Platform, userAgent: string, env: Env, t: int, sid1: seq<Byte>, sid2: seq<Byte>) {
    && Sound(h) && Strong(env) && sid1 != [] && sid2 != [] && sid1 != sid2
    && |CreateCookie(h, userAgent, env, t, sid1).value| <= MAX_COOKIE_VALUE_LENGTH
    && |CreateCookie(h, userAgent, env, t + 1000, sid2).value| <= MAX_COOKIE_VALUE_LENGTH
  }

  lemma GenuineAfterOne(h: Platform, es: seq<Event>, e: Event)
    requires Genuine(h, es) && HonestEvent(h, es, e)
    ensures Genuine(h, es + [e])
    ensures Issued(h, es) <= Issued(h, es + [e])
    ensures e.Create? && Strong(e.env) ==>
      Issued(h, es + [e]) == Issued(h, es) + {NewPayload(h, e.userAgent, e.env, e.nowMs, e.sidBytes)}
  {
    assert (es + [e])[..|es|] == es;
  }

  lemma CookieDecodes(h: Platform, userAgent: string, env: Env, t: int, sid: seq<Byte>)
    requires Sound(h) && Strong(env) && sid != []
    requires |CreateCookie(h, userAgent, env, t, sid).value| <= MAX_COOKIE_VALUE_LENGTH
    ensures Decoded(h, CreateCookie(h, userAgent, env, t, sid), env) == Some(NewPayload(h, userAgent, env, t, sid))
  {
    IssuedCookieDecodes(h, userAgent, env, t, sid);
  }

  lemma DifferentIds(sid1: seq<Byte>, sid2: seq<Byte>)
    requires sid1 != sid2
    ensures Encode(sid1) != Encode(sid2)
  {
    if Encode(sid1) == Encode(sid2) {
      EncodeInjective(sid1, sid2);
    }
  }

  lemma BothAreIssued(h: Platform, userAgent: string, env: Env, t: int, sid1: seq<Byte>, sid2: seq<Byte>)
    requires Strong(env) && sid1 != sid2
    ensures var two := TwoLogins(userAgent, env, t, sid1, sid2);
      && Genuine(h, two)
      && NewPayload(h, userAgent, env, t, sid1) in Issued(h, two)
      && NewPayload(h, userAgent, env, t + 1000, sid2) in Issued(h, two)
  {
    var none: seq<Event> := [];
    var e1, e2 := Create(userAgent, env, t, sid1), Create(userAgent, env, t + 1000, sid2);
    GenuineAfterOne(h, none, e1);
    assert none + [e1] == [e1];
    DifferentIds(sid1, sid2);
    assert Issued(h, [e1]) == {NewPayload(h, userAgent, env, t, sid1)};
    GenuineAfterOne(h, [e1], e2);
  }

  lemma LateRunIsGenuine(h: Platform, userAgent: string, env: Env, t: int, sid1: seq<Byte>, sid2: seq<Byte>)
    requires TwoSessions(h, userAgent, env, t, sid1, sid2)
    ensures Genuine(h, LateRun(h, userAgent, env, t, sid1, sid2) + [LateRequest(h, userAgent, env, t, sid1)])
  {
    BothAreIssued(h, userAgent, env, t, sid1, sid2);
    CookieDecodes(h, userAgent, env, t, sid1);
    CookieDecodes(h, userAgent, env, t + 1000, sid2);
    var two := TwoLogins(userAgent, env, t, sid1, sid2);
    GenuineAfterOne(h, two, RevokeFirst(h, userAgent, env, t, sid1));
    var three := two + [RevokeFirst(h, userAgent, env, t, sid1)];
    GenuineAfterOne(h, three, SeeSecond(h, userAgent, env, t, sid2));
    GenuineAfterOne(h, LateRun(h, userAgent, env, t, sid1, sid2), LateRequest(h, userAgent, env, t, sid1));
  }

  lemma RevokesTheFirst(h: Platform, userAgent: string, env: Env, t: int, sid1: seq<Byte>)
    requires Sound(h) && Strong(env) && sid1 != []
    requires |CreateCookie(h, userAgent, env, t, sid1).value| <= MAX_COOKIE_VALUE_LENGTH
    ensures var e := RevokeFirst(h, userAgent, env, t, sid1);
      RevokesId(h, e, Encode(sid1)) && Decoded(h, e.value, e.env).value.exp == Seconds(t) + 28800
  {
    CookieDecodes(h, userAgent, env, t, sid1);
  }

  lemma SeeingTheSecondPrunes(h: Platform, userAgent: string, env: Env, t: int, sid2: seq<Byte>)
    requires Sound(h) && Strong(env) && sid2 != []
    requires |CreateCookie(h, userAgent, env, t + 1000, sid2).value| <= MAX_COOKIE_VALUE_LENGTH
    ensures PruneSecond(h, SeeSecond(h, userAgent, env, t, sid2)) == Some(Seconds(t) + 28800)
  {
    CookieDecodes(h, userAgent, env, t + 1000, sid2);
    SecondsLater(t);
    InForceToTheLastSecond(h, userAgent, env, t + 1000, sid2, Seconds(t) + 28800);
  }

  lemma SecondsLater(t: int)
    ensures Seconds(t + 1000) == Seconds(t) + 1
    ensures Seconds(t + 28800000) == Seconds(t) + 28800
    ensures Seconds(t + 28799000) == Seconds(t) + 28799
  {
  }

  lemma InForceToTheLastSecond(h: Platform, userAgent: string, env: Env, issuedMs: int, sid: seq<Byte>, now: int)
    requires Strong(env) && Seconds(issuedMs) <= now < Seconds(issuedMs) + 28800
    ensures InForce(NewPayload(h, userAgent, env, issuedMs, sid), env, now)
  {
  }

  lemma FirstSessionIsPrunedAway(h: Platform, userAgent: string, env: Env, t: int, sid1: seq<Byte>, sid2: seq<Byte>)
    requires TwoSessions(h, userAgent, env, t, sid1, sid2)
    ensures var es := LateRun(h, userAgent, env, t, sid1, sid2);
      PrunedAway(h, es, Encode(sid1)) && Encode(sid1) in LastRecorded(h, es)
  {
    RevokesTheFirst(h, userAgent, env, t, sid1);
    SeeingTheSecondPrunes(h, userAgent, env, t, sid2);
    LaterClockPrunesAway(h, TwoLogins(userAgent, env, t, sid1, sid2), RevokeFirst(h, userAgent, env, t, sid1),
                         SeeSecond(h, userAgent, env, t, sid2), Encode(sid1));
    PrunedAwayWasRecorded(h, LateRun(h, userAgent, env, t, sid1, sid2), Encode(sid1));
  }

  lemma LateRequestPasses(h: Platform, userAgent: string, env: Env, t: int, sid1: seq<Byte>)
    requires Sound(h) && Strong(env) && sid1 != []
    requires |CreateCookie(h, userAgent, env, t, sid1).value| <= MAX_COOKIE_VALUE_LENGTH
    ensures var e := LateRequest(h, userAgent, env, t, sid1);
      FullVerdict(h, {}, e) && Decoded(h, e.value, e.env).value.sid == Encode(sid1)
  {
    CookieDecodes(h, userAgent, env, t, sid1);
  }

  /** It happens: nothing is forged and no id repeats, and a revoked session is accepted. */
  lemma ARevokedSessionIsAccepted(h: Platform, userAgent: string, env: Env, t: int, sid1: seq<Byte>, sid2: seq<Byte>)
    requires TwoSessions(h, userAgent, env, t, sid1, sid2)
    ensures var es, e := LateRun(h, userAgent, env, t, sid1, sid2), LateRequest(h, userAgent, env, t, sid1);
      && Genuine(h, es + [e])
      && Verdict(h, After(h, es), e) && !FullVerdict(h, EverRevoked(h, es), e)
  {
    var es, e := LateRun(h, userAgent, env, t, sid1, sid2), LateRequest(h, userAgent, env, t, sid1);
    LateRunIsGenuine(h, userAgent, env, t, sid1, sid2);
    FirstSessionIsPrunedAway(h, userAgent, env, t, sid1, sid2);
    LateRequestPasses(h, userAgent, env, t, sid1);
    WrongForOne(h, es, e, Encode(sid1));
  }

  lemma WrongForOne(h: Platform, es: seq<Event>, e: Event, sid: string)
    requires e.Verify? && FullVerdict(h, {}, e) && Decoded(h, e.value, e.env).value.sid == sid
    requires PrunedAway(h, es, sid) && sid in LastRecorded(h, es)
    ensures Verdict(h, After(h, es), e) && !FullVerdict(h, EverRevoked(h, es), e)
  {
    LastRecordedKeys(h, es);
    VerdictsDifferInAnyOrderIff(h, es, e);
  }

  lemma EverRevokedStep(h: Platform, es: seq<Event>, k: nat, sid: string)
    requires 0 < k <= |es|
    ensures sid in EverRevoked(h, es[..k]) <==> sid in EverRevoked(h, es[..k - 1]) || RevokesId(h, es[k - 1], sid)
  {
    assert es[..k][..k - 1] == es[..k - 1];
  }

  ghost predicate RevokedBefore(h: Platform, es: seq<Event>, k: nat, sid: string)
    requires k <= |es|
  {
    exists i :: 0 <= i < k && RevokesId(h, es[i], sid)
  }

  lemma RevokedBeforeStep(h: Platform, es: seq<Event>, k: nat, sid: string)
    requires 0 < k <= |es|
    ensures RevokedBefore(h, es, k, sid) <==> RevokedBefore(h, es, k - 1, sid) || RevokesId(h, es[k - 1], sid)
  {
  }

  lemma {:induction false} EverRevokedIff(h: Platform, es: seq<Event>, k: nat, sid: string)
    requires k <= |es|
    ensures sid in EverRevoked(h, es[..k]) <==> RevokedBefore(h, es, k, sid)
    decreases k
  {
    if k == 0 {
      assert es[..k] == [];
    } else {
      EverRevokedIff(h, es, k - 1, sid);
      var revokes := RevokesId(h, es[k - 1], sid);
      assert sid in EverRevoked(h, es[..k]) <==> sid in EverRevoked(h, es[..k - 1]) || revokes by {
        EverRevokedStep(h, es, k, sid);
      }
      assert RevokedBefore(h, es, k, sid) <==> RevokedBefore(h, es, k - 1, sid) || revokes by {
        RevokedBeforeStep(h, es, k, sid);
      }
    }
  }

  /** A session that was revoked once is never accepted again, however the map was pruned in between. */
  lemma RevokedIsNeverAcceptedAgain(h: Platform, es: seq<Event>, i: nat, k: nat, sid: string)
    requires Honest(h, es) && i < k < |es| && es[k].Verify? && RevokesId(h, es[i], sid)
    ensures Verdict(h, After(h, es[..k]), es[k]) ==> Decoded(h, es[k].value, es[k].env).value.sid != sid
  {
    PruningNeverChangesAVerdict(h, es, k);
    EverRevokedIff(h, es, k, sid);
  }

  /** In an honest run an issued cookie, presented with the settings and user agent it was issued to, is accepted
      exactly while it is in force, fits the length limit and no earlier event of the run revoked its id. */
  lemma AcceptedUnlessRevoked(h: Platform, es: seq<Event>, k: nat, issuedMs: int, sidBytes: seq<Byte>)
    requires Sound(h) && Honest(h, es) && k < |es| && es[k].Verify? && Strong(es[k].env) && sidBytes != []
    requires es[k].value == CreateCookie(h, es[k].userAgent, es[k].env, issuedMs, sidBytes)
    ensures Verdict(h, After(h, es[..k]), es[k])
      <==>
      && |es[k].value.value| <= MAX_COOKIE_VALUE_LENGTH
      && Seconds(issuedMs) - 60 <= Seconds(es[k].nowMs) < Seconds(issuedMs) + 28800
      && !RevokedBefore(h, es, k, Encode(sidBytes))
  {
    PruningNeverChangesAVerdict(h, es, k);
    IssuedCookieDecodes(h, es[k].userAgent, es[k].env, issuedMs, sidBytes);
    EverRevokedIff(h, es, k, Encode(sidBytes));
  }
}
