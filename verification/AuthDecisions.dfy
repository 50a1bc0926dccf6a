/**
 The answers of the remaining calls and of the guard, each decided by the earlier calls of the
 run: when a code is sent, what a refresh returns, whom the guard lets in, and what the user
 and device rows say.
 */
module AuthDecisions {
  import opened Prelude
  import opened AuthTables
  import opened AuthSessions
  import opened AuthOtp
  import opened AuthGuesses
  import opened AuthHistory

  // ---------- When a code is sent ----------

  /** Call j sent a code to this number. */
  ghost predicate SentTo(run: seq<Tables>, events: seq<Event>, ttl: Time, phone: string, j: nat) {
    && j < |events| < |run| && events[j].call.SendOtp? && events[j].call.phone == phone
    && OutcomeOf(run[j], events[j], ttl).OtpSent?
  }

  /** How many of the first k calls sent a code to this number at or after an instant. */
  ghost function Sends(run: seq<Tables>, events: seq<Event>, ttl: Time, phone: string, since: Time, k: nat): nat
    requires k <= |events| < |run|
  {
    if k == 0 then 0
    else
      Sends(run, events, ttl, phone, since, k - 1)
      + (if SentTo(run, events, ttl, phone, k - 1) && events[k - 1].at >= since then 1 else 0)
  }

  predicate ForPhone(t: Tables, c: Challenge, phone: string) {
    c.userId < |t.users| && t.users[c.userId].phone == phone
  }

  /** The challenges among the first n that belong to this number, created at or after an instant. */
  function PhoneCount(t: Tables, phone: string, since: Time, n: nat): nat
    requires n <= |t.challenges|
  {
    if n == 0 then 0
    else
      PhoneCount(t, phone, since, n - 1)
      + (if ForPhone(t, t.challenges[n - 1], phone) && t.challenges[n - 1].createdAt >= since then 1 else 0)
  }

  lemma {:induction false} PhoneCountStays(t: Tables, t': Tables, phone: string, since: Time, n: nat)
    requires RecordsStay(t, t') && UsersKnown(t) && n <= |t.challenges|
    ensures PhoneCount(t', phone, since, n) == PhoneCount(t, phone, since, n)
  {
    if n > 0 {
      PhoneCountStays(t, t', phone, since, n - 1);
      assert SameChallenge(t.challenges[n - 1], t'.challenges[n - 1]);
    }
  }

  lemma OnlySendsCreate(t: Tables, e: Event, ttl: Time)
    ensures var t' := Step(t, e.call, ttl, e.at).0;
      if e.call.SendOtp? && OutcomeOf(t, e, ttl).OtpSent? then |t'.challenges| == |t.challenges| + 1 && Sent(e, t', |t.challenges|)
      else |t'.challenges| == |t.challenges|
  {
  }

  lemma {:induction false} SendsAreCounted(run: seq<Tables>, events: seq<Event>, ttl: Time, phone: string, since: Time, k: nat)
    requires IsRun(run, events, ttl) && k < |run|
    ensures Sends(run, events, ttl, phone, since, k) == PhoneCount(run[k], phone, since, |run[k].challenges|)
  {
    if k > 0 {
      SendsAreCounted(run, events, ttl, phone, since, k - 1);
      NextSend(run, events, ttl, phone, since, k - 1);
    }
  }

  lemma NextSend(run: seq<Tables>, events: seq<Event>, ttl: Time, phone: string, since: Time, k: nat)
    requires IsRun(run, events, ttl) && k < |events|
    ensures PhoneCount(run[k + 1], phone, since, |run[k + 1].challenges|)
         == PhoneCount(run[k], phone, since, |run[k].challenges|)
            + (if SentTo(run, events, ttl, phone, k) && events[k].at >= since then 1 else 0)
  {
    RunSteps(run, events, ttl, k);
    ReachablePhones(run, events, ttl, k);
    StepKeepsRecords(run[k], events[k], ttl);
    PhoneCountStays(run[k], run[k + 1], phone, since, |run[k].challenges|);
    OnlySendsCreate(run[k], events[k], ttl);
  }

  lemma {:induction false} PhoneCountIsUserCount(t: Tables, u: nat, since: Time, n: nat)
    requires PhonesUnique(t) && UsersKnown(t) && u < |t.users| && n <= |t.challenges|
    ensures PhoneCount(t, t.users[u].phone, since, n) == CountSince(t.challenges[..n], u, since)
  {
    if n > 0 {
      PhoneCountIsUserCount(t, u, since, n - 1);
      assert t.challenges[..n][..n - 1] == t.challenges[..n - 1];
      assert ForPhone(t, t.challenges[n - 1], t.users[u].phone) <==> t.challenges[n - 1].userId == u;
    }
  }

  /** Some challenge of this number is under half a minute old. */
  predicate TooSoon(t: Tables, phone: string, now: Time) {
    exists c :: 0 <= c < |t.challenges| && RecentFor(t, phone, now, c)
  }

  predicate RecentFor(t: Tables, phone: string, now: Time, c: nat)
    requires c < |t.challenges|
  {
    ForPhone(t, t.challenges[c], phone) && now - t.challenges[c].createdAt < 30 * 1000
  }

  lemma LimitsOfUser(t: Tables, u: nat, now: Time)
    requires PhonesUnique(t) && UsersKnown(t) && InOrder(t.challenges, now) && u < |t.users|
    ensures OverLimit(t.challenges, u, now)
       <==> (PhoneCount(t, t.users[u].phone, now - 15 * 60 * 1000, |t.challenges|) >= 5 || TooSoon(t, t.users[u].phone, now))
  {
    PhoneCountIsUserCount(t, u, now - 15 * 60 * 1000, |t.challenges|);
    assert t.challenges[..|t.challenges|] == t.challenges;
    LatestDecides(t, u, now);
  }

  lemma LatestDecides(t: Tables, u: nat, now: Time)
    requires PhonesUnique(t) && InOrder(t.challenges, now) && u < |t.users|
    ensures TooSoon(t, t.users[u].phone, now)
       <==> (Latest(t.challenges, u).Some? && now - t.challenges[Latest(t.challenges, u).value].createdAt < 30 * 1000)
  {
    var latest := Latest(t.challenges, u);
    forall c: nat | c < |t.challenges| && RecentFor(t, t.users[u].phone, now, c)
      ensures latest.Some? && now - t.challenges[latest.value].createdAt < 30 * 1000
    {
      assert t.challenges[c].userId == u;
      assert c <= latest.value;
    }
    if latest.Some? && now - t.challenges[latest.value].createdAt < 30 * 1000 {
      assert RecentFor(t, t.users[u].phone, now, latest.value);
    }
  }

  lemma {:induction false} NoneForStrangers(t: Tables, phone: string, since: Time, n: nat)
    requires n <= |t.challenges| && forall u :: 0 <= u < |t.users| ==> t.users[u].phone != phone
    ensures PhoneCount(t, phone, since, n) == 0
  {
    if n > 0 { NoneForStrangers(t, phone, since, n - 1); }
  }

  lemma {:induction false} NoChallengeYet(cs: seq<Challenge>, u: nat, since: Time)
    requires forall c :: 0 <= c < |cs| ==> cs[c].userId < u
    ensures CountSince(cs, u, since) == 0 && Latest(cs, u).None?
  {
    if cs != [] { NoChallengeYet(cs[..|cs| - 1], u, since); }
  }

  lemma SendByLimits(t: Tables, e: Event, ttl: Time)
    requires e.call.SendOtp?
    ensures var found := UserByPhone(t.users, e.call.phone);
      OutcomeOf(t, e, ttl) ==
        if OverLimit(t.challenges, if found.Some? then found.value else |t.users|, e.at) then RateLimited else OtpSent
  {
  }

  /** Fewer than five codes in the last 15 minutes, and none in the last half minute. */
  predicate Admits(t: Tables, phone: string, now: Time) {
    PhoneCount(t, phone, now - 15 * 60 * 1000, |t.challenges|) < 5 && !TooSoon(t, phone, now)
  }

  lemma KnownAdmits(t: Tables, u: nat, phone: string, now: Time)
    requires PhonesUnique(t) && UsersKnown(t) && InOrder(t.challenges, now) && u < |t.users| && t.users[u].phone == phone
    ensures OverLimit(t.challenges, u, now) == !Admits(t, phone, now)
  {
    LimitsOfUser(t, u, now);
  }

  lemma StrangerAdmits(t: Tables, phone: string, now: Time)
    requires UsersKnown(t) && forall u :: 0 <= u < |t.users| ==> t.users[u].phone != phone
    ensures Admits(t, phone, now) && !OverLimit(t.challenges, |t.users|, now)
  {
    NoneForStrangers(t, phone, now - 15 * 60 * 1000, |t.challenges|);
    NoChallengeYet(t.challenges, |t.users|, now - 15 * 60 * 1000);
  }

  lemma SendAnswers(t: Tables, e: Event, ttl: Time)
    requires PhonesUnique(t) && UsersKnown(t) && InOrder(t.challenges, e.at) && e.call.SendOtp?
    ensures OutcomeOf(t, e, ttl) == if Admits(t, e.call.phone, e.at) then OtpSent else RateLimited
  {
    SendByLimits(t, e, ttl);
    var found := UserByPhone(t.users, e.call.phone);
    if found.Some? {
      KnownAdmits(t, found.value, e.call.phone, e.at);
    } else {
      StrangerAdmits(t, e.call.phone, e.at);
    }
  }

  /** Some earlier call sent a code to this number less than half a minute before. */
  ghost predicate SentJustBefore(run: seq<Tables>, events: seq<Event>, ttl: Time, phone: string, k: nat) {
    k < |events| < |run| && exists j: nat :: j < k && SentTo(run, events, ttl, phone, j) && events[k].at - events[j].at < 30 * 1000
  }

  lemma TooSoonMeansSentBefore(run: seq<Tables>, events: seq<Event>, ttl: Time, phone: string, k: nat)
    requires IsRun(run, events, ttl) && k < |events|
    ensures TooSoon(run[k], phone, events[k].at) <==> SentJustBefore(run, events, ttl, phone, k)
  {
    if TooSoon(run[k], phone, events[k].at) {
      var c: nat :| c < |run[k].challenges| && RecentFor(run[k], phone, events[k].at, c);
      var j := ChallengeWasSent(run, events, ttl, k, c);
      assert SentTo(run, events, ttl, phone, j);
    }
    forall j: nat | j < k && SentTo(run, events, ttl, phone, j) && events[k].at - events[j].at < 30 * 1000
      ensures TooSoon(run[k], phone, events[k].at)
    {
      SentThroughout(run, events, ttl, j, |run[j].challenges|, k);
      assert RecentFor(run[k], phone, events[k].at, |run[j].challenges|);
    }
  }

  /**
   In every run a code is sent exactly when fewer than five calls sent one to the number in the
   last 15 minutes and none in the last 30 seconds. Refused requests do not count.
   */
  lemma CodeSentExactlyWhen(run: seq<Tables>, events: seq<Event>, ttl: Time, k: nat)
    requires IsRun(run, events, ttl) && k < |events| && events[k].call.SendOtp?
    ensures var phone := events[k].call.phone;
      OutcomeOf(run[k], events[k], ttl) ==
        if Sends(run, events, ttl, phone, events[k].at - 15 * 60 * 1000, k) < 5 && !SentJustBefore(run, events, ttl, phone, k)
        then OtpSent else RateLimited
  {
    ReachablePhones(run, events, ttl, k);
    ReachableChallenges(run, events, ttl, k);
    SendsAreCounted(run, events, ttl, events[k].call.phone, events[k].at - 15 * 60 * 1000, k);
    TooSoonMeansSentBefore(run, events, ttl, events[k].call.phone, k);
    OrderHolds(run, events, ttl, k);
    SendAnswers(run[k], events[k], ttl);
  }

  lemma OrderHolds(run: seq<Tables>, events: seq<Event>, ttl: Time, k: nat)
    requires IsRun(run, events, ttl) && k < |events|
    ensures InOrder(run[k].challenges, events[k].at)
  {
    ReachableChallenges(run, events, ttl, k);
    forall c | 0 <= c < |run[k].challenges| ensures run[k].challenges[c].createdAt <= events[k].at {
      var j := ChallengeWasSent(run, events, ttl, k, c);
      assert events[j].at <= events[k].at;
    }
  }

  // ---------- What a refresh returns ----------

  /** The answer to a refresh is decided by the row of the presented token: live, used up, or out of date. */
  lemma RefreshAnswers(run: seq<Tables>, events: seq<Event>, ttl: Time, k: nat, i: nat)
    requires IsRun(run, events, ttl) && k < |events| && events[k].call.Refresh? && i < |run[k].sessions|
    requires run[k].sessions[i].refreshTokenHash == TokenHash(events[k].call.token)
    ensures var session := run[k].sessions[i];
      OutcomeOf(run[k], events[k], ttl) ==
        if session.usedAt.Some? || session.revokedAt.Some? then ReplayDetected(i)
        else if session.expiresAt < events[k].at then Unauthenticated
        else if TokenTaken(run[k], events[k].call.newToken) then UniqueViolation
        else Refreshed(i, |run[k].sessions|)
  {
    ReachableSessions(run, events, ttl, k);
    HashFindsSession(run[k].sessions, i);
    var used := run[k].sessions[i := run[k].sessions[i].(usedAt := Some(events[k].at))];
    SameHashes(run[k].sessions, used, TokenHash(events[k].call.newToken));
    assert TokenTaken(run[k], events[k].call.newToken) <==> SessionByHash(run[k].sessions, TokenHash(events[k].call.newToken)).Some?;
  }

  lemma {:induction false} SameHashes(s: seq<Session>, s': seq<Session>, hash: TokenHash)
    requires |s| == |s'| && forall i :: 0 <= i < |s| ==> s'[i].refreshTokenHash == s[i].refreshTokenHash
    ensures SessionByHash(s, hash) == SessionByHash(s', hash)
  {
    if s != [] { SameHashes(s[..|s| - 1], s'[..|s| - 1], hash); }
  }

  lemma UnknownTokenIsRefused(t: Tables, e: Event, ttl: Time)
    requires e.call.Refresh? && !TokenTaken(t, e.call.token)
    ensures Step(t, e.call, ttl, e.at) == (t, Unauthenticated)
  {
  }

  // ---------- Whom the guard lets in ----------

  /** Call j issued session i. */
  ghost predicate IssuesAt(run: seq<Tables>, events: seq<Event>, ttl: Time, j: nat, i: nat) {
    && j < |events| < |run| && i == |run[j].sessions|
    && (OutcomeOf(run[j], events[j], ttl).SignedIn? || OutcomeOf(run[j], events[j], ttl).Refreshed?)
  }

  lemma IssuedWithExpiry(run: seq<Tables>, events: seq<Event>, ttl: Time, j: nat, i: nat)
    requires IsRun(run, events, ttl) && IssuesAt(run, events, ttl, j, i)
    ensures i < |run[j + 1].sessions| && run[j + 1].sessions[i].expiresAt == events[j].at + ttl
  {
    RunSteps(run, events, ttl, j);
    if OutcomeOf(run[j], events[j], ttl).SignedIn? {
      SignInIssuesSession(run[j], events[j], ttl, run[j + 1]);
    } else {
      ReachableOwnDevices(run, events, ttl, j);
      RefreshIssuesSuccessor(run[j], events[j], ttl, run[j + 1]);
    }
  }

  lemma ExpiryStays(run: seq<Tables>, events: seq<Event>, ttl: Time, j: nat, k: nat, i: nat)
    requires IsRun(run, events, ttl) && IssuesAt(run, events, ttl, j, i) && j < k < |run|
    ensures i < |run[k].sessions| && run[k].sessions[i].expiresAt == events[j].at + ttl
  {
    IssuedWithExpiry(run, events, ttl, j, i);
    RunExtends(run, events, ttl, j + 1, k);
    assert run[k].sessions[i].expiresAt == run[j + 1].sessions[i].expiresAt;
  }

  lemma {:induction false} SessionWasIssued(run: seq<Tables>, events: seq<Event>, ttl: Time, k: nat, i: nat) returns (j: nat)
    requires IsRun(run, events, ttl) && k < |run| && i < |run[k].sessions|
    ensures j < k && IssuesAt(run, events, ttl, j, i)
  {
    RunSteps(run, events, ttl, k - 1);
    OnlySuccessIssuesSessions(run[k - 1], events[k - 1].call, ttl, events[k - 1].at);
    if i < |run[k - 1].sessions| {
      j := SessionWasIssued(run, events, ttl, k - 1, i);
    } else {
      j := k - 1;
    }
  }

  /**
   In every run the guard accepts a token exactly if it names a session of its own subject that
   was issued no longer ago than the refresh lifetime and that no call since has revoked.
   */
  lemma GuardAcceptsExactlyWhen(run: seq<Tables>, events: seq<Event>, ttl: Time, k: nat, subject: nat, i: nat, now: Time)
    requires IsRun(run, events, ttl) && k < |run|
    ensures GuardAccepts(run[k], subject, i, now)
       <==> (i < |run[k].sessions| && run[k].sessions[i].userId == subject
             && (exists j: nat :: j < k && IssuesAt(run, events, ttl, j, i) && now <= events[j].at + ttl)
             && !(exists j: nat :: j < k && RevokesAt(run, events, ttl, j, i)))
  {
    if i < |run[k].sessions| {
      var j := SessionWasIssued(run, events, ttl, k, i);
      ExpiryStays(run, events, ttl, j, k, i);
      SessionRevokedExactlyBy(run, events, ttl, k, i);
      forall j: nat | j < k && IssuesAt(run, events, ttl, j, i) ensures run[k].sessions[i].expiresAt == events[j].at + ttl {
        ExpiryStays(run, events, ttl, j, k, i);
      }
    }
  }

  // ---------- Device and user rows ----------

  /** The owner revoked this device in call j. */
  ghost predicate BlocksAt(run: seq<Tables>, events: seq<Event>, j: nat, d: nat) {
    && j < |events| < |run| && events[j].call.RevokeDevice? && events[j].call.deviceId == d
    && d < |run[j].devices| && run[j].devices[d].userId == events[j].call.userId
  }

  lemma TrustAfterStep(t: Tables, e: Event, ttl: Time)
    ensures var ds := Step(t, e.call, ttl, e.at).0.devices;
      && |t.devices| <= |ds|
      && (forall d :: |t.devices| <= d < |ds| ==> ds[d].trustState.Unverified?)
      && (forall d :: 0 <= d < |t.devices| ==>
            ds[d].trustState == if e.call.RevokeDevice? && e.call.deviceId == d && t.devices[d].userId == e.call.userId then Blocked
                                else t.devices[d].trustState)
      && (forall d :: 0 <= d < |t.devices| ==> ds[d].userId == t.devices[d].userId && ds[d].installationId == t.devices[d].installationId)
  {
  }

  ghost predicate BlockedBefore(run: seq<Tables>, events: seq<Event>, k: nat, d: nat) {
    exists j: nat :: j < k && BlocksAt(run, events, j, d)
  }

  lemma BlockedNext(run: seq<Tables>, events: seq<Event>, k: nat, d: nat)
    ensures BlockedBefore(run, events, k + 1, d) <==> BlockedBefore(run, events, k, d) || BlocksAt(run, events, k, d)
  {
    assert BlocksAt(run, events, k, d) ==> BlockedBefore(run, events, k + 1, d);
  }

  lemma TrustOfStep(run: seq<Tables>, events: seq<Event>, ttl: Time, k: nat, d: nat)
    requires IsRun(run, events, ttl) && k < |events| && d < |run[k + 1].devices|
    ensures d < |run[k].devices| ==>
      run[k + 1].devices[d].trustState == if BlocksAt(run, events, k, d) then Blocked else run[k].devices[d].trustState
    ensures d >= |run[k].devices| ==> run[k + 1].devices[d].trustState.Unverified?
  {
    RunSteps(run, events, ttl, k);
    TrustAfterStep(run[k], events[k], ttl);
  }

  /** In every run a device is blocked exactly when its owner has revoked it, and otherwise unverified. */
  lemma {:induction false} DeviceBlockedExactlyBy(run: seq<Tables>, events: seq<Event>, ttl: Time, k: nat, d: nat)
    requires IsRun(run, events, ttl) && k < |run| && d < |run[k].devices|
    ensures run[k].devices[d].trustState == if BlockedBefore(run, events, k, d) then Blocked else Unverified
  {
    TrustOfStep(run, events, ttl, k - 1, d);
    if d < |run[k - 1].devices| {
      DeviceBlockedExactlyBy(run, events, ttl, k - 1, d);
      BlockedNext(run, events, k - 1, d);
    } else {
      forall j: nat | j < k ensures !BlocksAt(run, events, j, d) {
        DevicesGrow(run, events, ttl, j, k - 1);
      }
    }
  }

  lemma {:induction false} DevicesGrow(run: seq<Tables>, events: seq<Event>, ttl: Time, j: nat, k: nat)
    requires IsRun(run, events, ttl) && j <= k < |run|
    ensures |run[j].devices| <= |run[k].devices|
    decreases k - j
  {
    if j < k {
      DevicesGrow(run, events, ttl, j, k - 1);
      RunSteps(run, events, ttl, k - 1);
      TrustAfterStep(run[k - 1], events[k - 1], ttl);
    }
  }

  ghost predicate SignsInAt(run: seq<Tables>, events: seq<Event>, ttl: Time, j: nat, phone: string) {
    && j < |events| < |run| && events[j].call.VerifyOtp? && events[j].call.phone == phone
    && OutcomeOf(run[j], events[j], ttl).SignedIn?
  }

  lemma StatusAfterStep(t: Tables, e: Event, ttl: Time, u: nat)
    requires PhonesUnique(t) && u < |Step(t, e.call, ttl, e.at).0.users|
    ensures var us := Step(t, e.call, ttl, e.at).0.users;
      && (u >= |t.users| ==> us[u].status.PendingVerification? && e.call.SendOtp? && us[u].phone == e.call.phone)
      && (u < |t.users| ==>
            us[u] == if e.call.VerifyOtp? && OutcomeOf(t, e, ttl).SignedIn? && e.call.phone == t.users[u].phone
                     then Activated(t.users[u]) else t.users[u])
  {
    if u < |t.users| { PhoneFindsUser(t, u); }
  }

  lemma StrangersDoNotSignIn(t: Tables, e: Event, ttl: Time, phone: string)
    requires forall u :: 0 <= u < |t.users| ==> t.users[u].phone != phone
    ensures e.call.VerifyOtp? && e.call.phone == phone ==> !OutcomeOf(t, e, ttl).SignedIn?
  {
  }

  lemma {:induction false} UserRowsStay(run: seq<Tables>, events: seq<Event>, ttl: Time, j: nat, k: nat)
    requires IsRun(run, events, ttl) && j <= k < |run|
    ensures |run[j].users| <= |run[k].users| && forall u :: 0 <= u < |run[j].users| ==> run[k].users[u].phone == run[j].users[u].phone
    decreases k - j
  {
    if j < k {
      UserRowsStay(run, events, ttl, j, k - 1);
      RunSteps(run, events, ttl, k - 1);
      StepKeepsRecords(run[k - 1], events[k - 1], ttl);
    }
  }

  ghost predicate SignedInBefore(run: seq<Tables>, events: seq<Event>, ttl: Time, k: nat, phone: string) {
    exists j: nat :: j < k && SignsInAt(run, events, ttl, j, phone)
  }

  lemma SignedInNext(run: seq<Tables>, events: seq<Event>, ttl: Time, k: nat, phone: string)
    ensures SignedInBefore(run, events, ttl, k + 1, phone)
       <==> SignedInBefore(run, events, ttl, k, phone) || SignsInAt(run, events, ttl, k, phone)
  {
    assert SignsInAt(run, events, ttl, k, phone) ==> SignedInBefore(run, events, ttl, k + 1, phone);
  }

  lemma StatusOfStep(run: seq<Tables>, events: seq<Event>, ttl: Time, k: nat, u: nat)
    requires IsRun(run, events, ttl) && k < |events| && u < |run[k + 1].users|
    ensures u >= |run[k].users| ==> run[k + 1].users[u].status.PendingVerification?
    ensures u < |run[k].users| ==>
      run[k + 1].users[u] == if SignsInAt(run, events, ttl, k, run[k].users[u].phone) then Activated(run[k].users[u]) else run[k].users[u]
  {
    RunSteps(run, events, ttl, k);
    ReachablePhones(run, events, ttl, k);
    StatusAfterStep(run[k], events[k], ttl, u);
  }

  /** A number whose user is not there yet has not signed in. */
  lemma NewUserHasNotSignedIn(run: seq<Tables>, events: seq<Event>, ttl: Time, k: nat, u: nat)
    requires IsRun(run, events, ttl) && k < |events| && |run[k].users| <= u < |run[k + 1].users|
    ensures !SignedInBefore(run, events, ttl, k + 1, run[k + 1].users[u].phone)
  {
    var phone := run[k + 1].users[u].phone;
    ReachablePhones(run, events, ttl, k + 1);
    forall j: nat | j < k + 1 ensures !SignsInAt(run, events, ttl, j, phone) {
      UserRowsStay(run, events, ttl, j, k);
      UserRowsStay(run, events, ttl, j, k + 1);
      forall v | 0 <= v < |run[j].users| ensures run[j].users[v].phone != phone {
        assert run[k + 1].users[v].phone == run[j].users[v].phone;
      }
      StrangersDoNotSignIn(run[j], events[j], ttl, phone);
    }
  }

  /** In every run a user is active exactly when someone has signed in with its number, and until then pending. */
  lemma {:induction false} UserActiveExactlyWhen(run: seq<Tables>, events: seq<Event>, ttl: Time, k: nat, u: nat)
    requires IsRun(run, events, ttl) && k < |run| && u < |run[k].users|
    ensures run[k].users[u].status ==
      if SignedInBefore(run, events, ttl, k, run[k].users[u].phone) then Active else PendingVerification
  {
    StatusOfStep(run, events, ttl, k - 1, u);
    if u < |run[k - 1].users| {
      UserActiveExactlyWhen(run, events, ttl, k - 1, u);
      SignedInNext(run, events, ttl, k - 1, run[k].users[u].phone);
    } else {
      NewUserHasNotSignedIn(run, events, ttl, k - 1, u);
    }
  }

  ghost predicate RequestedBefore(events: seq<Event>, k: nat, phone: string) {
    exists j: nat :: j < k && j < |events| && RequestsAt(events, j, phone)
  }

  predicate RequestsAt(events: seq<Event>, j: nat, phone: string)
    requires j < |events|
  {
    events[j].call.SendOtp? && events[j].call.phone == phone
  }

  predicate Known(t: Tables, phone: string) {
    exists u :: 0 <= u < |t.users| && t.users[u].phone == phone
  }

  lemma KnownAfterStep(t: Tables, e: Event, ttl: Time, phone: string)
    ensures Known(Step(t, e.call, ttl, e.at).0, phone) <==> Known(t, phone) || (e.call.SendOtp? && e.call.phone == phone)
  {
    var t' := Step(t, e.call, ttl, e.at).0;
    StepKeepsRecords(t, e, ttl);
    if Known(t, phone) {
      var u: nat :| u < |t.users| && t.users[u].phone == phone;
      assert t'.users[u].phone == phone;
    }
    if e.call.SendOtp? && e.call.phone == phone {
      var id := EnsureUser(t.users, phone).1;
      assert t'.users[id].phone == phone;
    }
  }

  /** In every run a number has a user exactly when a code was requested for it, refused or not, and never two. */
  lemma {:induction false} UserExistsExactlyWhen(run: seq<Tables>, events: seq<Event>, ttl: Time, k: nat, phone: string)
    requires IsRun(run, events, ttl) && k < |run|
    ensures Known(run[k], phone) <==> RequestedBefore(events, k, phone)
    ensures PhonesUnique(run[k])
  {
    ReachablePhones(run, events, ttl, k);
    if k > 0 {
      UserExistsExactlyWhen(run, events, ttl, k - 1, phone);
      RunSteps(run, events, ttl, k - 1);
      KnownAfterStep(run[k - 1], events[k - 1], ttl, phone);
      assert RequestsAt(events, k - 1, phone) ==> RequestedBefore(events, k, phone);
    }
  }
}
