/**
 The authentication tables and what each service call does to them. A row's id is its
 position; rows are only appended or updated. A call is one step at one instant.
 */
module AuthTables {
  import opened Prelude

  type Time = int  // milliseconds

  const MINUTE: Time := 60000
  const OTP_TTL: Time := 5 * MINUTE
  const OTP_WINDOW: Time := 15 * MINUTE
  const OTP_MIN_INTERVAL: Time := 30000
  const OTP_MAX_ATTEMPTS: nat := 5
  const OTP_MAX_PER_WINDOW: nat := 5

  // Keyed hashes: a constructor is an injective function whose argument cannot be recovered
  // from the tables except by comparing.
  datatype TokenHash = TokenHash(token: nat)
  datatype CodeHash = CodeHash(code: nat, userId: nat)

  datatype UserStatus = PendingVerification | Active | Suspended | Closed
  datatype TrustState = Unverified | Trusted | Blocked

  datatype User = User(phone: string, status: UserStatus)

  datatype Device = Device(userId: nat, installationId: string, lastSeenAt: Time, trustState: TrustState)

  datatype Challenge = Challenge(
    userId: nat,
    codeHash: CodeHash,
    attempts: nat,
    maxAttempts: nat,
    createdAt: Time,
    expiresAt: Time,
    consumedAt: Option<Time>)

  datatype Session = Session(
    userId: nat,
    deviceId: nat,
    familyId: nat,
    refreshTokenHash: TokenHash,
    rotatedFrom: Option<nat>,
    expiresAt: Time,
    usedAt: Option<Time>,
    revokedAt: Option<Time>)

  /** The audit row written for a wrong code. */
  datatype WrongCode = WrongCode(challenge: nat, at: Time)

  datatype Tables = Tables(
    users: seq<User>,
    devices: seq<Device>,
    challenges: seq<Challenge>,
    sessions: seq<Session>,
    wrongCodes: seq<WrongCode>)

  const NO_ROWS := Tables([], [], [], [], [])

  datatype Outcome =
    | OtpSent
    | RateLimited
    | OtpInvalid
    | OtpExpired
    | AttemptsExhausted
    | SignedIn(challengeId: nat, newSession: nat)
    | Refreshed(rotatedId: nat, nextSession: nat)
    | Unauthenticated
    | ReplayDetected(replayedId: nat)
    | UniqueViolation
    | Done

  /** A service call, with the random values it draws. */
  datatype Call =
    | SendOtp(phone: string, code: nat)
    | VerifyOtp(phone: string, code: nat, installationId: string, token: nat, family: nat)
    | Refresh(token: nat, newToken: nat)
    | Logout(sessionId: nat, userId: nat)
    | RevokeDevice(userId: nat, deviceId: nat)

  // ---------- Queries ----------

  function UserByPhone(users: seq<User>, phone: string): (r: Option<nat>)
    ensures r.Some? ==> r.value < |users| && users[r.value].phone == phone
    ensures r.None? ==> forall i :: 0 <= i < |users| ==> users[i].phone != phone
  {
    if users == [] then None
    else if users[|users| - 1].phone == phone then Some(|users| - 1)
    else UserByPhone(users[..|users| - 1], phone)
  }

  function DeviceOf(devices: seq<Device>, userId: nat, installationId: string): (r: Option<nat>)
    ensures r.Some? ==> r.value < |devices| && devices[r.value].userId == userId
    ensures r.Some? ==> devices[r.value].installationId == installationId
    ensures r.None? ==> forall i :: 0 <= i < |devices| ==> devices[i].userId != userId || devices[i].installationId != installationId
  {
    if devices == [] then None
    else
      var last := devices[|devices| - 1];
      if last.userId == userId && last.installationId == installationId then Some(|devices| - 1)
      else DeviceOf(devices[..|devices| - 1], userId, installationId)
  }

  /** Number of the user's challenges created at or after an instant. */
  function CountSince(challenges: seq<Challenge>, userId: nat, since: Time): nat {
    if challenges == [] then 0
    else
      var last := challenges[|challenges| - 1];
      CountSince(challenges[..|challenges| - 1], userId, since)
      + (if last.userId == userId && last.createdAt >= since then 1 else 0)
  }

  /** The user's newest challenge; rows are in order of creation. */
  function Latest(challenges: seq<Challenge>, userId: nat): (r: Option<nat>)
    ensures r.Some? ==> r.value < |challenges| && challenges[r.value].userId == userId
    ensures r.Some? ==> forall i :: r.value < i < |challenges| ==> challenges[i].userId != userId
    ensures r.None? ==> forall i :: 0 <= i < |challenges| ==> challenges[i].userId != userId
  {
    if challenges == [] then None
    else if challenges[|challenges| - 1].userId == userId then Some(|challenges| - 1)
    else Latest(challenges[..|challenges| - 1], userId)
  }

  predicate Open(c: Challenge, userId: nat) {
    c.userId == userId && c.consumedAt.None?
  }

  /** The user's newest challenge that has not been consumed. */
  function LatestOpen(challenges: seq<Challenge>, userId: nat): (r: Option<nat>)
    ensures r.Some? ==> r.value < |challenges| && Open(challenges[r.value], userId)
    ensures r.Some? ==> forall i :: r.value < i < |challenges| ==> !Open(challenges[i], userId)
    ensures r.None? ==> forall i :: 0 <= i < |challenges| ==> !Open(challenges[i], userId)
  {
    if challenges == [] then None
    else if Open(challenges[|challenges| - 1], userId) then Some(|challenges| - 1)
    else LatestOpen(challenges[..|challenges| - 1], userId)
  }

  function SessionByHash(sessions: seq<Session>, hash: TokenHash): (r: Option<nat>)
    ensures r.Some? ==> r.value < |sessions| && sessions[r.value].refreshTokenHash == hash
    ensures r.None? ==> forall i :: 0 <= i < |sessions| ==> sessions[i].refreshTokenHash != hash
  {
    if sessions == [] then None
    else if sessions[|sessions| - 1].refreshTokenHash == hash then Some(|sessions| - 1)
    else SessionByHash(sessions[..|sessions| - 1], hash)
  }

  // ---------- Updates ----------

  function Revoke(s: Session, hit: bool, now: Time): Session {
    if hit && s.revokedAt.None? then s.(revokedAt := Some(now)) else s
  }

  /** updateMany on a family: rows already revoked keep their timestamp. */
  function RevokeFamily(sessions: seq<Session>, family: nat, now: Time): (r: seq<Session>)
    ensures |r| == |sessions|
    ensures forall i {:trigger r[i]} :: 0 <= i < |sessions| ==> r[i] == Revoke(sessions[i], sessions[i].familyId == family, now)
  {
    seq(|sessions|, i requires 0 <= i < |sessions| => Revoke(sessions[i], sessions[i].familyId == family, now))
  }

  function RevokeOnDevice(sessions: seq<Session>, userId: nat, deviceId: nat, now: Time): (r: seq<Session>)
    ensures |r| == |sessions|
    ensures forall i {:trigger r[i]} :: 0 <= i < |sessions| ==>
      r[i] == Revoke(sessions[i], sessions[i].userId == userId && sessions[i].deviceId == deviceId, now)
  {
    seq(|sessions|, i requires 0 <= i < |sessions| =>
      Revoke(sessions[i], sessions[i].userId == userId && sessions[i].deviceId == deviceId, now))
  }

  function RevokeOne(sessions: seq<Session>, id: nat, userId: nat, now: Time): (r: seq<Session>)
    ensures |r| == |sessions|
    ensures forall i {:trigger r[i]} :: 0 <= i < |sessions| ==>
      r[i] == Revoke(sessions[i], i == id && sessions[i].userId == userId, now)
  {
    seq(|sessions|, i requires 0 <= i < |sessions| => Revoke(sessions[i], i == id && sessions[i].userId == userId, now))
  }

  function BlockDevice(devices: seq<Device>, userId: nat, deviceId: nat): seq<Device> {
    if deviceId < |devices| && devices[deviceId].userId == userId
    then devices[deviceId := devices[deviceId].(trustState := Blocked)]
    else devices
  }

  /** Creating a session; the unique index on the token hash may refuse it. */
  function IssueSession(sessions: seq<Session>, userId: nat, deviceId: nat, family: nat, rotatedFrom: Option<nat>,
                        token: nat, expiresAt: Time): Option<seq<Session>> {
    if SessionByHash(sessions, TokenHash(token)).Some? then None
    else Some(sessions + [Session(userId, deviceId, family, TokenHash(token), rotatedFrom, expiresAt, None, None)])
  }

  function UpsertDevice(devices: seq<Device>, userId: nat, installationId: string, now: Time): (r: (seq<Device>, nat))
    ensures r.1 < |r.0| && r.0[r.1].userId == userId && r.0[r.1].installationId == installationId
    ensures |devices| <= |r.0|
  {
    match DeviceOf(devices, userId, installationId)
    case Some(id) => (devices[id := devices[id].(lastSeenAt := now)], id)
    case None => (devices + [Device(userId, installationId, now, Unverified)], |devices|)
  }

  // ---------- The calls ----------

  function EnsureUser(users: seq<User>, phone: string): (r: (seq<User>, nat))
    ensures r.1 < |r.0| && r.0[r.1].phone == phone
  {
    match UserByPhone(users, phone)
    case Some(id) => (users, id)
    case None => (users + [User(phone, PendingVerification)], |users|)
  }

  /** Only a pending user is activated; any other status stays. */
  function Activated(user: User): User {
    if user.status.PendingVerification? then user.(status := Active) else user
  }

  predicate OverLimit(challenges: seq<Challenge>, userId: nat, now: Time) {
    || CountSince(challenges, userId, now - OTP_WINDOW) >= OTP_MAX_PER_WINDOW
    || (Latest(challenges, userId).Some? && now - challenges[Latest(challenges, userId).value].createdAt < OTP_MIN_INTERVAL)
  }

  function AfterSendOtp(t: Tables, phone: string, code: nat, now: Time): (Tables, Outcome) {
    var (users, id) := EnsureUser(t.users, phone);
    var t1 := t.(users := users);
    if OverLimit(t.challenges, id, now) then (t1, RateLimited)
    else
      var challenge := Challenge(id, CodeHash(code, id), 0, OTP_MAX_ATTEMPTS, now, now + OTP_TTL, None);
      (t1.(challenges := t.challenges + [challenge]), OtpSent)
  }

  function AfterVerifyOtp(t: Tables, phone: string, code: nat, installationId: string, token: nat, family: nat,
                          ttl: Time, now: Time): (Tables, Outcome) {
    match UserByPhone(t.users, phone)
    case None => (t, OtpInvalid)
    case Some(id) =>
      match LatestOpen(t.challenges, id)
      case None => (t, OtpInvalid)
      case Some(c) =>
        var challenge := t.challenges[c];
        if challenge.expiresAt < now then (t, OtpExpired)
        else if challenge.attempts >= challenge.maxAttempts then (t, AttemptsExhausted)
        else if CodeHash(code, id) != challenge.codeHash then
          (t.(challenges := t.challenges[c := challenge.(attempts := challenge.attempts + 1)],
              wrongCodes := t.wrongCodes + [WrongCode(c, now)]), OtpInvalid)
        else
          var (devices, deviceId) := UpsertDevice(t.devices, id, installationId, now);
          match IssueSession(t.sessions, id, deviceId, family, None, token, now + ttl)
          case None => (t, UniqueViolation)
          case Some(sessions) =>
            (t.(users := t.users[id := Activated(t.users[id])],
                devices := devices,
                challenges := t.challenges[c := challenge.(consumedAt := Some(now))],
                sessions := sessions), SignedIn(c, |t.sessions|))
  }

  function AfterRefresh(t: Tables, token: nat, newToken: nat, ttl: Time, now: Time): (Tables, Outcome) {
    match SessionByHash(t.sessions, TokenHash(token))
    case None => (t, Unauthenticated)
    case Some(i) =>
      var session := t.sessions[i];
      if session.usedAt.Some? || session.revokedAt.Some? then
        (t.(sessions := RevokeFamily(t.sessions, session.familyId, now)), ReplayDetected(i))
      else if session.expiresAt < now then (t, Unauthenticated)
      else
        var used := t.sessions[i := session.(usedAt := Some(now))];
        match IssueSession(used, session.userId, session.deviceId, session.familyId, Some(i), newToken, now + ttl)
        case None => (t, UniqueViolation)
        case Some(sessions) => (t.(sessions := sessions), Refreshed(i, |t.sessions|))
  }

  function Step(t: Tables, call: Call, ttl: Time, now: Time): (Tables, Outcome) {
    match call
    case SendOtp(phone, code) => AfterSendOtp(t, phone, code, now)
    case VerifyOtp(phone, code, installationId, token, family) =>
      AfterVerifyOtp(t, phone, code, installationId, token, family, ttl, now)
    case Refresh(token, newToken) => AfterRefresh(t, token, newToken, ttl, now)
    case Logout(id, userId) => (t.(sessions := RevokeOne(t.sessions, id, userId, now)), Done)
    case RevokeDevice(userId, deviceId) =>
      (t.(sessions := RevokeOnDevice(t.sessions, userId, deviceId, now),
          devices := BlockDevice(t.devices, userId, deviceId)), Done)
  }

  /** The guard's test of a verified access token (subject, session) against the session table. */
  predicate GuardAccepts(t: Tables, subject: nat, sessionId: nat, now: Time) {
    && sessionId < |t.sessions|
    && t.sessions[sessionId].revokedAt.None?
    && t.sessions[sessionId].userId == subject
    && t.sessions[sessionId].expiresAt >= now
  }

  // ---------- Runs ----------

  datatype Event = Event(call: Call, at: Time)

  /** A fresh family id is drawn for every sign-in: no session carries it yet. */
  predicate Fresh(t: Tables, call: Call) {
    call.VerifyOtp? ==> forall i :: 0 <= i < |t.sessions| ==> t.sessions[i].familyId != call.family
  }

  ghost predicate Transition(t: Tables, e: Event, ttl: Time, t': Tables) {
    Fresh(t, e.call) && t' == Step(t, e.call, ttl, e.at).0
  }

  function OutcomeOf(t: Tables, e: Event, ttl: Time): Outcome {
    Step(t, e.call, ttl, e.at).1
  }

  /**
   A run: the tables before and after every event, from empty tables, for serialised calls of
   any number and in any order on a clock that never runs backwards.
   */
  ghost predicate IsRun(run: seq<Tables>, events: seq<Event>, ttl: Time) {
    && |run| == |events| + 1 && run[0] == NO_ROWS
    && (forall i, j :: 0 <= i <= j < |events| ==> events[i].at <= events[j].at)
    && (forall k: nat :: k < |events| ==> StepsAt(run, events, ttl, k))
  }

  ghost predicate StepsAt(run: seq<Tables>, events: seq<Event>, ttl: Time, k: nat)
    requires k < |events| && |run| == |events| + 1
  {
    Transition(run[k], events[k], ttl, run[k + 1])
  }

  lemma RunSteps(run: seq<Tables>, events: seq<Event>, ttl: Time, k: nat)
    requires IsRun(run, events, ttl) && k < |events|
    ensures Transition(run[k], events[k], ttl, run[k + 1])
  {
    assert StepsAt(run, events, ttl, k);
  }
}
