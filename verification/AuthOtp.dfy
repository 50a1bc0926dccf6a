/**
 One-time codes over every run of serialised calls: how many challenges any window can hold
 and how many guesses anybody gets.
 */
module AuthOtp {
  import opened Prelude
  import opened AuthTables

  // ---------- The invariant of the challenge table ----------

  predicate WellFormed(c: Challenge) {
    c.maxAttempts == OTP_MAX_ATTEMPTS && c.attempts <= OTP_MAX_ATTEMPTS && c.expiresAt == c.createdAt + OTP_TTL
  }

  /** Row j was admitted: at most four of its user's challenges were less than a window older. */
  predicate Admitted(cs: seq<Challenge>, j: nat)
    requires j < |cs|
  {
    CountSince(cs[..j], cs[j].userId, cs[j].createdAt - OTP_WINDOW) < OTP_MAX_PER_WINDOW
  }

  predicate InOrder(cs: seq<Challenge>, now: Time) {
    (forall i, j :: 0 <= i <= j < |cs| ==> cs[i].createdAt <= cs[j].createdAt)
    && (forall i :: 0 <= i < |cs| ==> cs[i].createdAt <= now)
  }

  /** A user's challenges are at least half a minute apart. */
  predicate Spaced(cs: seq<Challenge>) {
    forall i, j :: 0 <= i < j < |cs| && cs[i].userId == cs[j].userId ==> cs[j].createdAt - cs[i].createdAt >= OTP_MIN_INTERVAL
  }

  /** Wrong codes recorded against one challenge. */
  function WrongOn(wrong: seq<WrongCode>, c: nat): nat {
    if wrong == [] then 0
    else WrongOn(wrong[..|wrong| - 1], c) + (if wrong[|wrong| - 1].challenge == c then 1 else 0)
  }

  /** Every recorded wrong code hit an existing challenge during its lifetime. */
  predicate WrongWithinLife(cs: seq<Challenge>, wrong: seq<WrongCode>) {
    forall k :: 0 <= k < |wrong| ==> HitsLife(cs, wrong[k])
  }

  predicate HitsLife(cs: seq<Challenge>, w: WrongCode) {
    w.challenge < |cs| && cs[w.challenge].createdAt <= w.at <= cs[w.challenge].expiresAt
  }

  predicate AttemptsCounted(cs: seq<Challenge>, wrong: seq<WrongCode>) {
    forall c :: 0 <= c < |cs| ==> cs[c].attempts == WrongOn(wrong, c)
  }

  predicate AllAdmitted(cs: seq<Challenge>) {
    forall c :: 0 <= c < |cs| ==> Admitted(cs, c)
  }

  predicate AllWellFormed(cs: seq<Challenge>) {
    forall c :: 0 <= c < |cs| ==> WellFormed(cs[c])
  }

  predicate ChallengesOk(t: Tables, now: Time) {
    && AllWellFormed(t.challenges) && AllAdmitted(t.challenges)
    && InOrder(t.challenges, now) && Spaced(t.challenges)
    && WrongWithinLife(t.challenges, t.wrongCodes) && AttemptsCounted(t.challenges, t.wrongCodes)
  }

  // ---------- Every call keeps it ----------

  lemma {:induction false} CountIgnoresProgress(cs: seq<Challenge>, cs': seq<Challenge>, userId: nat, since: Time)
    requires |cs| == |cs'|
    requires forall i :: 0 <= i < |cs| ==> cs[i].userId == cs'[i].userId && cs[i].createdAt == cs'[i].createdAt
    ensures CountSince(cs, userId, since) == CountSince(cs', userId, since)
  {
    if cs != [] { CountIgnoresProgress(cs[..|cs| - 1], cs'[..|cs| - 1], userId, since); }
  }

  /** The same challenges with other attempt counts and consumption marks. */
  predicate SameIssue(cs: seq<Challenge>, cs': seq<Challenge>) {
    |cs| == |cs'| && forall i :: 0 <= i < |cs| ==>
      cs[i].userId == cs'[i].userId && cs[i].createdAt == cs'[i].createdAt
  }

  lemma AdmittedIgnoresProgress(cs: seq<Challenge>, cs': seq<Challenge>, j: nat)
    requires SameIssue(cs, cs') && j < |cs| && Admitted(cs, j)
    ensures Admitted(cs', j)
  {
    CountIgnoresProgress(cs[..j], cs'[..j], cs[j].userId, cs[j].createdAt - OTP_WINDOW);
  }

  /** The newest challenge of a user is the one created last, so the query order is unambiguous. */
  lemma LatestIsNewest(cs: seq<Challenge>, userId: nat, i: nat)
    requires Spaced(cs) && Latest(cs, userId).Some? && i < |cs| && cs[i].userId == userId
    ensures i != Latest(cs, userId).value ==> cs[i].createdAt < cs[Latest(cs, userId).value].createdAt
  {
  }

  /** The same for the newest open challenge. */
  lemma LatestOpenIsNewest(cs: seq<Challenge>, userId: nat, i: nat)
    requires Spaced(cs) && LatestOpen(cs, userId).Some? && i < |cs| && Open(cs[i], userId)
    ensures i != LatestOpen(cs, userId).value ==> cs[i].createdAt < cs[LatestOpen(cs, userId).value].createdAt
  {
  }

  lemma ProgressKeepsAdmission(cs: seq<Challenge>, cs': seq<Challenge>)
    requires SameIssue(cs, cs') && AllAdmitted(cs)
    ensures AllAdmitted(cs')
  {
    forall j | 0 <= j < |cs'| ensures Admitted(cs', j) {
      AdmittedIgnoresProgress(cs, cs', j);
    }
  }

  lemma IssueKeepsAdmission(cs: seq<Challenge>, c: Challenge, now: Time)
    requires AllAdmitted(cs) && c.createdAt == now && !OverLimit(cs, c.userId, now)
    ensures AllAdmitted(cs + [c])
  {
    var cs' := cs + [c];
    forall j | 0 <= j < |cs'| ensures Admitted(cs', j) {
      if j < |cs| {
        assert Admitted(cs, j) && cs'[..j] == cs[..j];
      } else {
        assert cs'[..j] == cs;
      }
    }
  }

  lemma IssueKeepsOrder(cs: seq<Challenge>, c: Challenge, before: Time, now: Time)
    requires InOrder(cs, before) && Spaced(cs) && before <= now && c.createdAt == now && !OverLimit(cs, c.userId, now)
    ensures InOrder(cs + [c], now) && Spaced(cs + [c])
  {
    forall i | 0 <= i < |cs| && cs[i].userId == c.userId ensures now - cs[i].createdAt >= OTP_MIN_INTERVAL {
      LatestIsNewest(cs, c.userId, i);
    }
  }

  lemma IssueKeepsCounts(cs: seq<Challenge>, wrong: seq<WrongCode>, c: Challenge)
    requires WrongWithinLife(cs, wrong) && AttemptsCounted(cs, wrong) && c.attempts == 0
    ensures WrongWithinLife(cs + [c], wrong) && AttemptsCounted(cs + [c], wrong)
  {
    forall k | 0 <= k < |wrong| ensures HitsLife(cs + [c], wrong[k]) && wrong[k].challenge < |cs| {
      assert HitsLife(cs, wrong[k]);
    }
    NoWrongYet(wrong, |cs|);
  }

  lemma IssueKeepsInvariant(t: Tables, c: Challenge, before: Time, now: Time)
    requires ChallengesOk(t, before) && before <= now
    requires WellFormed(c) && c.attempts == 0 && c.createdAt == now && !OverLimit(t.challenges, c.userId, now)
    ensures ChallengesOk(t.(challenges := t.challenges + [c]), now)
  {
    IssueKeepsAdmission(t.challenges, c, now);
    IssueKeepsOrder(t.challenges, c, before, now);
    IssueKeepsCounts(t.challenges, t.wrongCodes, c);
  }

  lemma {:induction false} NoWrongYet(wrong: seq<WrongCode>, c: nat)
    requires forall k :: 0 <= k < |wrong| ==> wrong[k].challenge < c
    ensures WrongOn(wrong, c) == 0
  {
    if wrong != [] { NoWrongYet(wrong[..|wrong| - 1], c); }
  }

  lemma WrongCodeKeepsInvariant(t: Tables, id: nat, before: Time, now: Time)
    requires ChallengesOk(t, before) && before <= now && id < |t.challenges|
    requires t.challenges[id].attempts < OTP_MAX_ATTEMPTS && now <= t.challenges[id].expiresAt
    ensures ChallengesOk(
      t.(challenges := t.challenges[id := t.challenges[id].(attempts := t.challenges[id].attempts + 1)],
         wrongCodes := t.wrongCodes + [WrongCode(id, now)]), now)
  {
    var cs' := t.challenges[id := t.challenges[id].(attempts := t.challenges[id].attempts + 1)];
    OneMoreAttempt(t.challenges, cs', t.wrongCodes, WrongCode(id, now));
    ProgressKeepsOrder(t.challenges, cs', before, now);
    ProgressKeepsAdmission(t.challenges, cs');
  }

  lemma ProgressKeepsOrder(cs: seq<Challenge>, cs': seq<Challenge>, before: Time, now: Time)
    requires SameIssue(cs, cs') && InOrder(cs, before) && Spaced(cs) && before <= now
    ensures InOrder(cs', now) && Spaced(cs')
  {
  }

  lemma OneMoreAttempt(cs: seq<Challenge>, cs': seq<Challenge>, wrong: seq<WrongCode>, w: WrongCode)
    requires AttemptsCounted(cs, wrong) && WrongWithinLife(cs, wrong) && HitsLife(cs, w)
    requires cs' == cs[w.challenge := cs[w.challenge].(attempts := cs[w.challenge].attempts + 1)]
    ensures AttemptsCounted(cs', wrong + [w]) && WrongWithinLife(cs', wrong + [w])
  {
    var wrong' := wrong + [w];
    assert wrong'[..|wrong'| - 1] == wrong;
    forall k | 0 <= k < |wrong'| ensures HitsLife(cs', wrong'[k]) {
      if k < |wrong| { assert HitsLife(cs, wrong[k]); }
    }
  }

  lemma ConsumingKeepsInvariant(t: Tables, t': Tables, id: nat, before: Time, now: Time)
    requires ChallengesOk(t, before) && before <= now && id < |t.challenges|
    requires t'.challenges == t.challenges[id := t.challenges[id].(consumedAt := Some(now))] && t'.wrongCodes == t.wrongCodes
    ensures ChallengesOk(t', now)
  {
    ProgressKeepsOrder(t.challenges, t'.challenges, before, now);
    ProgressKeepsAdmission(t.challenges, t'.challenges);
    forall k | 0 <= k < |t'.wrongCodes| ensures HitsLife(t'.challenges, t'.wrongCodes[k]) {
      assert HitsLife(t.challenges, t.wrongCodes[k]);
    }
  }

  lemma LaterIsFine(t: Tables, t': Tables, before: Time, now: Time)
    requires ChallengesOk(t, before) && before <= now
    requires t'.challenges == t.challenges && t'.wrongCodes == t.wrongCodes
    ensures ChallengesOk(t', now)
  {
  }

  lemma SendOtpKeepsChallenges(t: Tables, phone: string, code: nat, before: Time, now: Time)
    requires ChallengesOk(t, before) && before <= now
    ensures ChallengesOk(AfterSendOtp(t, phone, code, now).0, now)
  {
    var t' := AfterSendOtp(t, phone, code, now).0;
    var id := EnsureUser(t.users, phone).1;
    if OverLimit(t.challenges, id, now) {
      LaterIsFine(t, t', before, now);
    } else {
      var c := Challenge(id, CodeHash(code, id), 0, OTP_MAX_ATTEMPTS, now, now + OTP_TTL, None);
      IssueKeepsInvariant(t, c, before, now);
      LaterIsFine(t.(challenges := t.challenges + [c]), t', now, now);
    }
  }

  predicate Untouched(t: Tables, t': Tables) {
    t'.challenges == t.challenges && t'.wrongCodes == t.wrongCodes
  }

  predicate GuessedWrong(t: Tables, t': Tables, c: nat, now: Time) {
    && c < |t.challenges| && t.challenges[c].attempts < t.challenges[c].maxAttempts && now <= t.challenges[c].expiresAt
    && t' == t.(challenges := t.challenges[c := t.challenges[c].(attempts := t.challenges[c].attempts + 1)],
                wrongCodes := t.wrongCodes + [WrongCode(c, now)])
  }

  predicate Consumed(t: Tables, t': Tables, c: nat, now: Time) {
    && c < |t.challenges| && t'.wrongCodes == t.wrongCodes
    && t'.challenges == t.challenges[c := t.challenges[c].(consumedAt := Some(now))]
  }

  /** What a verification can do to the challenge table. */
  lemma VerifyOtpEffect(t: Tables, e: Event, ttl: Time) returns (c: nat)
    requires e.call.VerifyOtp?
    ensures var t' := Step(t, e.call, ttl, e.at).0;
      Untouched(t, t') || GuessedWrong(t, t', c, e.at) || Consumed(t, t', c, e.at)
  {
    c := 0;
    var user := UserByPhone(t.users, e.call.phone);
    if user.Some? {
      var open := LatestOpen(t.challenges, user.value);
      if open.Some? { c := open.value; }
    }
  }

  lemma GuessKeepsInvariant(t: Tables, t': Tables, c: nat, before: Time, now: Time)
    requires ChallengesOk(t, before) && before <= now && GuessedWrong(t, t', c, now)
    ensures ChallengesOk(t', now)
  {
    assert WellFormed(t.challenges[c]);
    WrongCodeKeepsInvariant(t, c, before, now);
  }

  lemma TransitionKeepsChallenges(t: Tables, e: Event, ttl: Time, t': Tables, before: Time)
    requires ChallengesOk(t, before) && before <= e.at && Transition(t, e, ttl, t')
    ensures ChallengesOk(t', e.at)
  {
    match e.call
    case SendOtp(phone, code) => SendOtpKeepsChallenges(t, phone, code, before, e.at);
    case VerifyOtp(_, _, _, _, _) =>
      var c := VerifyOtpEffect(t, e, ttl);
      if Untouched(t, t') {
        LaterIsFine(t, t', before, e.at);
      } else if Consumed(t, t', c, e.at) {
        ConsumingKeepsInvariant(t, t', c, before, e.at);
      } else {
        GuessKeepsInvariant(t, t', c, before, e.at);
      }
    case _ => LaterIsFine(t, t', before, e.at);
  }

  /** The instant of the k-th state of a run: that of the call that produced it. */
  function Clock(events: seq<Event>, k: nat): Time
    requires k <= |events|
  {
    if k > 0 then events[k - 1].at else if |events| > 0 then events[0].at else 0
  }

  lemma {:induction false} ReachableChallenges(run: seq<Tables>, events: seq<Event>, ttl: Time, k: nat)
    requires IsRun(run, events, ttl) && k < |run|
    ensures ChallengesOk(run[k], Clock(events, k))
  {
    if k > 0 {
      ReachableChallenges(run, events, ttl, k - 1);
      RunSteps(run, events, ttl, k - 1);
      TransitionKeepsChallenges(run[k - 1], events[k - 1], ttl, run[k], Clock(events, k - 1));
    }
  }

  // ---------- The sliding window ----------

  /** The user's challenges created within a closed interval. */
  function SentWithin(cs: seq<Challenge>, userId: nat, lo: Time, hi: Time): nat {
    if cs == [] then 0
    else
      var last := cs[|cs| - 1];
      SentWithin(cs[..|cs| - 1], userId, lo, hi)
      + (if last.userId == userId && lo <= last.createdAt <= hi then 1 else 0)
  }

  lemma {:induction false} WithinIsSince(cs: seq<Challenge>, userId: nat, lo: Time, hi: Time, since: Time)
    requires since <= lo
    ensures SentWithin(cs, userId, lo, hi) <= CountSince(cs, userId, since)
  {
    if cs != [] { WithinIsSince(cs[..|cs| - 1], userId, lo, hi, since); }
  }

  /** Admission one by one bounds every window, wherever it is laid. */
  lemma {:induction false} WindowHoldsFive(cs: seq<Challenge>, userId: nat, lo: Time, hi: Time)
    requires hi - lo <= OTP_WINDOW
    requires AllAdmitted(cs)
    ensures SentWithin(cs, userId, lo, hi) <= OTP_MAX_PER_WINDOW
  {
    if cs != [] {
      var last, earlier := cs[|cs| - 1], cs[..|cs| - 1];
      if last.userId == userId && lo <= last.createdAt <= hi {
        assert Admitted(cs, |cs| - 1);
        WithinIsSince(earlier, userId, lo, hi, last.createdAt - OTP_WINDOW);
      } else {
        forall j | 0 <= j < |earlier| ensures Admitted(earlier, j) {
          assert Admitted(cs, j) && earlier[..j] == cs[..j];
        }
        WindowHoldsFive(earlier, userId, lo, hi);
      }
    }
  }

  /** In every run, any closed 15-minute window holds at most five challenges of one user. */
  lemma AtMostFiveChallengesPerWindow(
    run: seq<Tables>, events: seq<Event>, ttl: Time, k: nat, userId: nat, lo: Time, hi: Time)
    requires IsRun(run, events, ttl) && k < |run| && hi - lo <= OTP_WINDOW
    ensures SentWithin(run[k].challenges, userId, lo, hi) <= OTP_MAX_PER_WINDOW
  {
    ReachableChallenges(run, events, ttl, k);
    WindowHoldsFive(run[k].challenges, userId, lo, hi);
  }

  // ---------- Guesses ----------

  predicate Belongs(cs: seq<Challenge>, c: nat, userId: nat, lo: Time, hi: Time) {
    c < |cs| && cs[c].userId == userId && lo <= cs[c].createdAt <= hi
  }

  /** The user's wrong codes within a closed interval. */
  function WrongWithin(cs: seq<Challenge>, wrong: seq<WrongCode>, userId: nat, lo: Time, hi: Time): nat {
    if wrong == [] then 0
    else
      var last := wrong[|wrong| - 1];
      WrongWithin(cs, wrong[..|wrong| - 1], userId, lo, hi)
      + (if last.challenge < |cs| && cs[last.challenge].userId == userId && lo <= last.at <= hi then 1 else 0)
  }

  /** Wrong codes on those of the first n challenges that the user created in the interval. */
  function WrongOnSent(cs: seq<Challenge>, wrong: seq<WrongCode>, userId: nat, lo: Time, hi: Time, n: nat): nat
    requires n <= |cs|
  {
    if n == 0 then 0
    else
      var here := if Belongs(cs, n - 1, userId, lo, hi) then WrongOn(wrong, n - 1) else 0;
      WrongOnSent(cs, wrong, userId, lo, hi, n - 1) + here
  }

  lemma {:induction false} OneMoreWrong(
    cs: seq<Challenge>, wrong: seq<WrongCode>, w: WrongCode, userId: nat, lo: Time, hi: Time, n: nat)
    requires n <= |cs|
    ensures WrongOnSent(cs, wrong + [w], userId, lo, hi, n)
         == WrongOnSent(cs, wrong, userId, lo, hi, n) + (if w.challenge < n && Belongs(cs, w.challenge, userId, lo, hi) then 1 else 0)
  {
    if n > 0 {
      OneMoreWrong(cs, wrong, w, userId, lo, hi, n - 1);
      assert (wrong + [w])[..|wrong|] == wrong;
    }
  }

  /** A wrong code inside the interval is on a challenge created at most a lifetime before it. */
  lemma {:induction false} WrongAreOnRecent(cs: seq<Challenge>, wrong: seq<WrongCode>, userId: nat, lo: Time, hi: Time)
    requires WrongWithinLife(cs, wrong) && AllWellFormed(cs)
    ensures WrongWithin(cs, wrong, userId, lo, hi) <= WrongOnSent(cs, wrong, userId, lo - OTP_TTL, hi, |cs|)
  {
    if wrong == [] {
    } else {
      var last, earlier := wrong[|wrong| - 1], wrong[..|wrong| - 1];
      WrongAreOnRecent(cs, earlier, userId, lo, hi);
      OneMoreWrong(cs, earlier, last, userId, lo - OTP_TTL, hi, |cs|);
      assert earlier + [last] == wrong;
    }
  }

  lemma {:induction false} FiveWrongPerChallenge(
    cs: seq<Challenge>, wrong: seq<WrongCode>, userId: nat, lo: Time, hi: Time, n: nat)
    requires n <= |cs| && AttemptsCounted(cs, wrong) && AllWellFormed(cs)
    ensures WrongOnSent(cs, wrong, userId, lo, hi, n) <= OTP_MAX_ATTEMPTS * SentWithin(cs[..n], userId, lo, hi)
  {
    if n > 0 {
      FiveWrongPerChallenge(cs, wrong, userId, lo, hi, n - 1);
      assert cs[..n][..n - 1] == cs[..n - 1];
      assert WellFormed(cs[n - 1]);
    }
  }

  /** In every run each challenge takes at most five wrong codes. */
  lemma AtMostFiveWrongCodes(run: seq<Tables>, events: seq<Event>, ttl: Time, k: nat, c: nat)
    requires IsRun(run, events, ttl) && k < |run| && c < |run[k].challenges|
    ensures WrongOn(run[k].wrongCodes, c) <= OTP_MAX_ATTEMPTS
  {
    ReachableChallenges(run, events, ttl, k);
    assert WellFormed(run[k].challenges[c]);
  }

  /** In every run, any closed 10-minute window holds at most 25 wrong codes of one user. */
  lemma AtMostTwentyFiveWrongCodes(
    run: seq<Tables>, events: seq<Event>, ttl: Time, k: nat, userId: nat, lo: Time, hi: Time)
    requires IsRun(run, events, ttl) && k < |run| && hi - lo <= 10 * MINUTE
    ensures WrongWithin(run[k].challenges, run[k].wrongCodes, userId, lo, hi) <= 25
  {
    var cs, wrong := run[k].challenges, run[k].wrongCodes;
    ReachableChallenges(run, events, ttl, k);
    WrongAreOnRecent(cs, wrong, userId, lo, hi);
    FiveWrongPerChallenge(cs, wrong, userId, lo - OTP_TTL, hi, |cs|);
    assert cs[..|cs|] == cs;
    WindowHoldsFive(cs, userId, lo - OTP_TTL, hi);
  }

  // ---------- A code works once ----------

  /** A consumed challenge keeps its mark through any call and is never compared again. */
  lemma TransitionKeepsConsumed(t: Tables, e: Event, ttl: Time, t': Tables, c: nat)
    requires Transition(t, e, ttl, t') && c < |t.challenges| && t.challenges[c].consumedAt.Some?
    ensures c < |t'.challenges| && t'.challenges[c] == t.challenges[c]
    ensures OutcomeOf(t, e, ttl).SignedIn? ==> OutcomeOf(t, e, ttl).challengeId != c
  {
  }

  lemma {:induction false} ConsumedForever(run: seq<Tables>, events: seq<Event>, ttl: Time, j: nat, k: nat, c: nat)
    requires IsRun(run, events, ttl) && j <= k < |run|
    requires c < |run[j].challenges| && run[j].challenges[c].consumedAt.Some?
    ensures c < |run[k].challenges| && run[k].challenges[c] == run[j].challenges[c]
    decreases k - j
  {
    if j < k {
      ConsumedForever(run, events, ttl, j, k - 1, c);
      OneStepKeepsConsumed(run, events, ttl, k - 1, c);
    }
  }

  lemma OneStepKeepsConsumed(run: seq<Tables>, events: seq<Event>, ttl: Time, k: nat, c: nat)
    requires IsRun(run, events, ttl) && k < |events| && c < |run[k].challenges| && run[k].challenges[c].consumedAt.Some?
    ensures c < |run[k + 1].challenges| && run[k + 1].challenges[c] == run[k].challenges[c]
  {
    RunSteps(run, events, ttl, k);
    TransitionKeepsConsumed(run[k], events[k], ttl, run[k + 1], c);
  }

  lemma SignInConsumes(t: Tables, e: Event, ttl: Time, t': Tables)
    requires Transition(t, e, ttl, t') && OutcomeOf(t, e, ttl).SignedIn?
    ensures var c := OutcomeOf(t, e, ttl).challengeId;
      && c < |t'.challenges| && t'.challenges[c].consumedAt == Some(e.at)
      && c < |t.challenges| && t.challenges[c].consumedAt.None? && t.challenges[c].attempts < t.challenges[c].maxAttempts
      && e.at <= t.challenges[c].expiresAt
      && e.call.VerifyOtp? && t.challenges[c].codeHash == CodeHash(e.call.code, t.challenges[c].userId)
  {
  }

  /** In every run a challenge signs its user in at most once, with its own code, before it expires. */
  lemma ChallengeSucceedsOnce(run: seq<Tables>, events: seq<Event>, ttl: Time, j: nat, k: nat)
    requires IsRun(run, events, ttl) && j < k < |events|
    requires OutcomeOf(run[j], events[j], ttl).SignedIn? && OutcomeOf(run[k], events[k], ttl).SignedIn?
    ensures OutcomeOf(run[j], events[j], ttl).challengeId != OutcomeOf(run[k], events[k], ttl).challengeId
  {
    RunSteps(run, events, ttl, j);
    SignInConsumes(run[j], events[j], ttl, run[j + 1]);
    ConsumedForever(run, events, ttl, j + 1, k, OutcomeOf(run[j], events[j], ttl).challengeId);
    RunSteps(run, events, ttl, k);
    TransitionKeepsConsumed(run[k], events[k], ttl, run[k + 1], OutcomeOf(run[j], events[j], ttl).challengeId);
  }
}
