/** AuthService and its tables as an object whose calls update rows in place. */
module AuthService {
  import opened Prelude
  import opened AuthTables

  class Service {
    var users: seq<User>
    var devices: seq<Device>
    var challenges: seq<Challenge>
    var sessions: seq<Session>
    var wrongCodes: seq<WrongCode>
    const refreshTtl: Time

    constructor (refreshTtl: Time)
      ensures View() == NO_ROWS && this.refreshTtl == refreshTtl
    {
      users, devices, challenges, sessions, wrongCodes := [], [], [], [], [];
      this.refreshTtl := refreshTtl;
    }

    ghost function View(): Tables
      reads this
    {
      Tables(users, devices, challenges, sessions, wrongCodes)
    }

    method EnforceOtpRateLimits(userId: nat, now: Time) returns (allowed: bool)
      ensures allowed <==> !OverLimit(challenges, userId, now)
    {
      var recentCount := CountSince(challenges, userId, now - OTP_WINDOW);
      var latest := Latest(challenges, userId);
      if recentCount >= OTP_MAX_PER_WINDOW {
        return false;
      }
      if latest.Some? && now - challenges[latest.value].createdAt < OTP_MIN_INTERVAL {
        return false;
      }
      return true;
    }

    method SendOtp(phone: string, code: nat, now: Time) returns (r: Outcome)
      modifies this
      ensures (View(), r) == Step(old(View()), Call.SendOtp(phone, code), refreshTtl, now)
    {
      var user := UserByPhone(users, phone);
      if user.None? {
        user := Some(|users|);
        users := users + [User(phone, PendingVerification)];
      }
      var allowed := EnforceOtpRateLimits(user.value, now);
      if !allowed {
        return RateLimited;
      }
      challenges := challenges + [Challenge(
        user.value, CodeHash(code, user.value), 0, OTP_MAX_ATTEMPTS, now, now + OTP_TTL, None)];
      return OtpSent;
    }

    /** A sign-in is one transaction: a refused session insert undoes the consumed code as well. */
    method VerifyOtp(phone: string, code: nat, installationId: string, token: nat, family: nat, now: Time)
      returns (r: Outcome)
      modifies this
      ensures (View(), r) == Step(old(View()), Call.VerifyOtp(phone, code, installationId, token, family), refreshTtl, now)
    {
      var user := UserByPhone(users, phone);
      if user.None? {
        return OtpInvalid;
      }
      var latest := LatestOpen(challenges, user.value);
      if latest.None? {
        return OtpInvalid;
      }
      var id := latest.value;
      var challenge := challenges[id];
      if challenge.expiresAt < now {
        return OtpExpired;
      }
      if challenge.attempts >= challenge.maxAttempts {
        return AttemptsExhausted;
      }
      if CodeHash(code, user.value) != challenge.codeHash {
        challenges := challenges[id := challenge.(attempts := challenge.attempts + 1)];
        wrongCodes := wrongCodes + [WrongCode(id, now)];
        return OtpInvalid;
      }
      var before := (users, devices, challenges);
      challenges := challenges[id := challenge.(consumedAt := Some(now))];
      if users[user.value].status.PendingVerification? {
        users := users[user.value := users[user.value].(status := Active)];
      }
      assert users == before.0[user.value := Activated(before.0[user.value])];
      var upserted := UpsertDevice(devices, user.value, installationId, now);
      devices := upserted.0;
      var issued := IssueSession(sessions, user.value, upserted.1, family, None, token, now + refreshTtl);
      if issued.None? {
        users, devices, challenges := before.0, before.1, before.2;
        return UniqueViolation;
      }
      r := SignedIn(id, |sessions|);
      sessions := issued.value;
    }

    method Refresh(token: nat, newToken: nat, now: Time) returns (r: Outcome)
      modifies this
      ensures (View(), r) == Step(old(View()), Call.Refresh(token, newToken), refreshTtl, now)
    {
      var found := SessionByHash(sessions, TokenHash(token));
      if found.None? {
        return Unauthenticated;
      }
      var id := found.value;
      var session := sessions[id];
      if session.usedAt.Some? || session.revokedAt.Some? {
        sessions := RevokeFamily(sessions, session.familyId, now);
        return ReplayDetected(id);
      }
      if session.expiresAt < now {
        return Unauthenticated;
      }
      var before := sessions;
      sessions := sessions[id := session.(usedAt := Some(now))];
      var issued := IssueSession(
        sessions, session.userId, session.deviceId, session.familyId, Some(id), newToken, now + refreshTtl);
      if issued.None? {
        sessions := before;
        return UniqueViolation;
      }
      r := Refreshed(id, |sessions|);
      sessions := issued.value;
    }

    method Logout(sessionId: nat, userId: nat, now: Time) returns (r: Outcome)
      modifies this
      ensures (View(), r) == Step(old(View()), Call.Logout(sessionId, userId), refreshTtl, now)
    {
      sessions := RevokeOne(sessions, sessionId, userId, now);
      return Done;
    }

    method RevokeDevice(userId: nat, deviceId: nat, now: Time) returns (r: Outcome)
      modifies this
      ensures (View(), r) == Step(old(View()), Call.RevokeDevice(userId, deviceId), refreshTtl, now)
    {
      sessions := RevokeOnDevice(sessions, userId, deviceId, now);
      devices := BlockDevice(devices, userId, deviceId);
      return Done;
    }

    /** canActivate on a protected route, once the token's signature has been verified. */
    method CanActivate(subject: nat, sessionId: nat, now: Time) returns (accepted: bool)
      ensures accepted <==> GuardAccepts(View(), subject, sessionId, now)
    {
      if sessionId >= |sessions| {
        return false;
      }
      var session := sessions[sessionId];
      if session.revokedAt.Some? || session.userId != subject || session.expiresAt < now {
        return false;
      }
      return true;
    }
  }
}
