/**
 Where the rows of a run come from: every session descends from a code that was sent to its
 user's phone, and every revocation from a call that asked for it.
 */
module AuthHistory {
  import opened Prelude
  import opened AuthTables
  import opened AuthSessions
  import opened AuthOtp
  import opened AuthGuesses

  // ---------- Sign-ins answer sent codes ----------

  /** Call m sent the code that call j signed in with, to the same number. */
  ghost predicate Answers(run: seq<Tables>, events: seq<Event>, ttl: Time, m: nat, j: nat) {
    && m < j < |events| && |run| == |events| + 1
    && events[m].call.SendOtp? && OutcomeOf(run[m], events[m], ttl).OtpSent?
    && events[j].call.VerifyOtp? && OutcomeOf(run[j], events[j], ttl).SignedIn?
    && events[m].call.phone == events[j].call.phone && events[m].call.code == events[j].call.code
    && OutcomeOf(run[j], events[j], ttl).challengeId == |run[m].challenges|
    && events[j].at - events[m].at <= 5 * 60 * 1000
    && Guesses(run, events, m, OutcomeOf(run[j], events[j], ttl).challengeId, j) < 5
  }

  lemma SignInReadsPhone(t: Tables, e: Event, ttl: Time)
    requires OutcomeOf(t, e, ttl).SignedIn?
    ensures e.call.VerifyOtp? && OutcomeOf(t, e, ttl).challengeId < |t.challenges|
    ensures var user := t.challenges[OutcomeOf(t, e, ttl).challengeId].userId;
      user < |t.users| && t.users[user].phone == e.call.phone
  {
  }

  /**
   A sign-in answers a code sent to that very number at most five minutes before, after fewer
   than five wrong guesses at it.
   */
  lemma SignInAnswersSentCode(run: seq<Tables>, events: seq<Event>, ttl: Time, j: nat) returns (m: nat)
    requires IsRun(run, events, ttl) && j < |events| && OutcomeOf(run[j], events[j], ttl).SignedIn?
    ensures Answers(run, events, ttl, m, j)
  {
    var c := OutcomeOf(run[j], events[j], ttl).challengeId;
    RunSteps(run, events, ttl, j);
    SignInConsumes(run[j], events[j], ttl, run[j + 1]);
    SignInReadsPhone(run[j], events[j], ttl);
    ReachableChallenges(run, events, ttl, j);
    assert WellFormed(run[j].challenges[c]);
    m := ChallengeWasSent(run, events, ttl, j, c);
    GuessesAreCounted(run, events, ttl, m, c, j);
  }

  // ---------- Sessions descend from sign-ins ----------

  /** Call j signed the user in and opened this family. */
  ghost predicate Opens(run: seq<Tables>, events: seq<Event>, ttl: Time, j: nat, session: Session) {
    && j < |events| && |run| == |events| + 1 && OutcomeOf(run[j], events[j], ttl).SignedIn? && events[j].call.VerifyOtp?
    && events[j].call.family == session.familyId
    && session.userId < |run[j + 1].users| && run[j + 1].users[session.userId].phone == events[j].call.phone
    && session.deviceId < |run[j + 1].devices| && run[j + 1].devices[session.deviceId].userId == session.userId
    && run[j + 1].devices[session.deviceId].installationId == events[j].call.installationId
  }

  predicate SameBinding(a: Session, b: Session) {
    a.familyId == b.familyId && a.userId == b.userId && a.deviceId == b.deviceId
  }

  /** A session that a call finds or leaves is bound like one that was there, or opened by the call. */
  lemma SessionOfStep(run: seq<Tables>, events: seq<Event>, ttl: Time, k: nat, i: nat) returns (p: nat)
    requires IsRun(run, events, ttl) && k < |events| && i < |run[k + 1].sessions|
    ensures Opens(run, events, ttl, k, run[k + 1].sessions[i])
         || (p < |run[k].sessions| && SameBinding(run[k].sessions[p], run[k + 1].sessions[i]))
  {
    p := i;
    RunSteps(run, events, ttl, k);
    if i < |run[k].sessions| {
      OneStepExtends(run, events, ttl, k);
      assert run[k + 1].sessions[i].familyId == run[k].sessions[i].familyId;
    } else {
      OnlySuccessIssuesSessions(run[k], events[k].call, ttl, events[k].at);
      if OutcomeOf(run[k], events[k], ttl).SignedIn? {
        SignInIssuesSession(run[k], events[k], ttl, run[k + 1]);
      } else {
        ReachableOwnDevices(run, events, ttl, k);
        RefreshIssuesSuccessor(run[k], events[k], ttl, run[k + 1]);
        p := OutcomeOf(run[k], events[k], ttl).rotatedId;
      }
    }
  }

  lemma {:induction false} FamilyStartsWithSignIn(run: seq<Tables>, events: seq<Event>, ttl: Time, k: nat, i: nat) returns (j: nat)
    requires IsRun(run, events, ttl) && k < |run| && i < |run[k].sessions|
    ensures j < k && Opens(run, events, ttl, j, run[k].sessions[i])
  {
    j := k - 1;
    var p := SessionOfStep(run, events, ttl, k - 1, i);
    if !Opens(run, events, ttl, k - 1, run[k].sessions[i]) {
      j := FamilyStartsWithSignIn(run, events, ttl, k - 1, p);
    }
  }

  /**
   End to end: every session of every run descends from a sign-in that opened its family with
   a code sent to its user's phone number, on the device the session is bound to.
   */
  lemma SessionStartsWithSentCode(run: seq<Tables>, events: seq<Event>, ttl: Time, k: nat, i: nat)
    requires IsRun(run, events, ttl) && k < |run| && i < |run[k].sessions|
    ensures exists m: nat, j: nat :: j < k && Opens(run, events, ttl, j, run[k].sessions[i]) && Answers(run, events, ttl, m, j)
  {
    var j := FamilyStartsWithSignIn(run, events, ttl, k, i);
    var m := SignInAnswersSentCode(run, events, ttl, j);
  }

  /** How many of the first k calls signed in or refreshed. */
  function Successes(run: seq<Tables>, events: seq<Event>, ttl: Time, k: nat): nat
    requires k <= |events| <= |run|
  {
    if k == 0 then 0
    else
      var r := OutcomeOf(run[k - 1], events[k - 1], ttl);
      Successes(run, events, ttl, k - 1) + (if r.SignedIn? || r.Refreshed? then 1 else 0)
  }

  /** Each success leaves one session row, and nothing else does. */
  lemma {:induction false} SessionsCountSuccesses(run: seq<Tables>, events: seq<Event>, ttl: Time, k: nat)
    requires IsRun(run, events, ttl) && k < |run|
    ensures |run[k].sessions| == Successes(run, events, ttl, k)
  {
    if k > 0 {
      SessionsCountSuccesses(run, events, ttl, k - 1);
      RunSteps(run, events, ttl, k - 1);
      OnlySuccessIssuesSessions(run[k - 1], events[k - 1].call, ttl, events[k - 1].at);
    }
  }

  // ---------- Revocations were asked for ----------

  ghost predicate RevokesAt(run: seq<Tables>, events: seq<Event>, ttl: Time, j: nat, i: nat) {
    && j < |events| && |run| == |events| + 1 && i < |run[j].sessions|
    && Revokes(run[j], events[j].call, ttl, events[j].at, i)
  }

  lemma RevokesLeavesRevoked(run: seq<Tables>, events: seq<Event>, ttl: Time, j: nat, i: nat)
    requires IsRun(run, events, ttl) && RevokesAt(run, events, ttl, j, i)
    ensures i < |run[j + 1].sessions| && run[j + 1].sessions[i].revokedAt.Some?
  {
    RunSteps(run, events, ttl, j);
    OneStepExtends(run, events, ttl, j);
    if run[j].sessions[i].revokedAt.None? {
      RevokedOnlyBy(run[j], events[j].call, ttl, events[j].at, i);
    } else {
      assert run[j + 1].sessions[i].revokedAt == run[j].sessions[i].revokedAt;
    }
  }

  lemma RevokedNow(t: Tables, call: Call, ttl: Time, now: Time, i: nat)
    requires i < |t.sessions| && t.sessions[i].revokedAt.None? && Revokes(t, call, ttl, now, i)
    ensures i < |Step(t, call, ttl, now).0.sessions| && Step(t, call, ttl, now).0.sessions[i].revokedAt == Some(now)
  {
  }

  lemma {:induction false} RevocationHasCause(run: seq<Tables>, events: seq<Event>, ttl: Time, k: nat, i: nat) returns (j: nat)
    requires IsRun(run, events, ttl) && k < |run| && i < |run[k].sessions| && run[k].sessions[i].revokedAt.Some?
    ensures j < k && RevokesAt(run, events, ttl, j, i) && run[k].sessions[i].revokedAt == Some(events[j].at)
  {
    RunSteps(run, events, ttl, k - 1);
    OneStepExtends(run, events, ttl, k - 1);
    if i >= |run[k - 1].sessions| {
      NewSessionIsLive(run[k - 1], events[k - 1], ttl, i);
    } else if run[k - 1].sessions[i].revokedAt.Some? {
      assert run[k].sessions[i].revokedAt == run[k - 1].sessions[i].revokedAt;
      j := RevocationHasCause(run, events, ttl, k - 1, i);
    } else {
      j := k - 1;
      RevokedOnlyBy(run[j], events[j].call, ttl, events[j].at, i);
      RevokedNow(run[j], events[j].call, ttl, events[j].at, i);
    }
  }

  lemma NewSessionIsLive(t: Tables, e: Event, ttl: Time, i: nat)
    requires |t.sessions| <= i < |Step(t, e.call, ttl, e.at).0.sessions|
    ensures Step(t, e.call, ttl, e.at).0.sessions[i].revokedAt.None?
  {
  }

  /**
   A session is revoked in a run exactly when some earlier call asked for it: a replay in its
   family, its user's revocation of its device, or its own logout. The row carries the time of
   such a call.
   */
  lemma SessionRevokedExactlyBy(run: seq<Tables>, events: seq<Event>, ttl: Time, k: nat, i: nat)
    requires IsRun(run, events, ttl) && k < |run| && i < |run[k].sessions|
    ensures run[k].sessions[i].revokedAt.Some? <==> exists j: nat :: j < k && RevokesAt(run, events, ttl, j, i)
    ensures run[k].sessions[i].revokedAt.Some? ==>
      exists j: nat :: j < k && RevokesAt(run, events, ttl, j, i) && run[k].sessions[i].revokedAt == Some(events[j].at)
  {
    if run[k].sessions[i].revokedAt.Some? {
      var j := RevocationHasCause(run, events, ttl, k, i);
    }
    forall j: nat | j < k && RevokesAt(run, events, ttl, j, i) ensures run[k].sessions[i].revokedAt.Some? {
      RevokesLeavesRevoked(run, events, ttl, j, i);
      RunExtends(run, events, ttl, j + 1, k);
      assert run[k].sessions[i].revokedAt == run[j + 1].sessions[i].revokedAt;
    }
  }
}
