/**
 Codes sent and guessed, counted over the calls of a run and not over the rows they leave: when
 a code is sent, what a verification answers, and how many wrong guesses there can be.
 */
module AuthGuesses {
  import opened Prelude
  import opened AuthTables
  import opened AuthOtp

  // ---------- Challenges were sent ----------

  /** Users keep their phone numbers, and challenges whom, what and when they were created for. */
  predicate RecordsStay(t: Tables, t': Tables) {
    && |t.users| <= |t'.users| && |t.challenges| <= |t'.challenges|
    && (forall u :: 0 <= u < |t.users| ==> t'.users[u].phone == t.users[u].phone)
    && (forall c :: 0 <= c < |t.challenges| ==> SameChallenge(t.challenges[c], t'.challenges[c]))
  }

  predicate SameChallenge(a: Challenge, b: Challenge) {
    b == a.(attempts := b.attempts, consumedAt := b.consumedAt)
  }

  lemma SendOtpKeepsRecords(t: Tables, phone: string, code: nat, now: Time)
    ensures RecordsStay(t, AfterSendOtp(t, phone, code, now).0)
  {
  }

  lemma VerifyOtpKeepsRecords(t: Tables, phone: string, code: nat, installationId: string, token: nat, family: nat, ttl: Time, now: Time)
    ensures RecordsStay(t, AfterVerifyOtp(t, phone, code, installationId, token, family, ttl, now).0)
  {
  }

  lemma StepKeepsRecords(t: Tables, e: Event, ttl: Time)
    ensures RecordsStay(t, Step(t, e.call, ttl, e.at).0)
  {
    match e.call
    case SendOtp(phone, code) => SendOtpKeepsRecords(t, phone, code, e.at);
    case VerifyOtp(phone, code, installationId, token, family) =>
      VerifyOtpKeepsRecords(t, phone, code, installationId, token, family, ttl, e.at);
    case _ => SameRecords(t, Step(t, e.call, ttl, e.at).0);
  }

  lemma SameRecords(t: Tables, t': Tables)
    requires t'.users == t.users && t'.challenges == t.challenges
    ensures RecordsStay(t, t')
  {
  }

  /** This call created this challenge for the user with its phone number. */
  predicate Sent(e: Event, t: Tables, c: nat) {
    && e.call.SendOtp? && c < |t.challenges| && t.challenges[c].userId < |t.users|
    && t.users[t.challenges[c].userId].phone == e.call.phone
    && t.challenges[c].codeHash == CodeHash(e.call.code, t.challenges[c].userId)
    && t.challenges[c].createdAt == e.at
  }

  lemma SentStays(e: Event, t: Tables, t': Tables, c: nat)
    requires Sent(e, t, c) && RecordsStay(t, t')
    ensures Sent(e, t', c)
  {
    assert SameChallenge(t.challenges[c], t'.challenges[c]);
  }

  lemma NewChallengeIsSent(t: Tables, e: Event, ttl: Time, c: nat)
    requires |t.challenges| <= c < |Step(t, e.call, ttl, e.at).0.challenges|
    ensures c == |t.challenges| && OutcomeOf(t, e, ttl).OtpSent? && Sent(e, Step(t, e.call, ttl, e.at).0, c)
  {
  }

  lemma {:induction false} ChallengeWasSent(run: seq<Tables>, events: seq<Event>, ttl: Time, k: nat, c: nat) returns (m: nat)
    requires IsRun(run, events, ttl) && k < |run| && c < |run[k].challenges|
    ensures m < k && c == |run[m].challenges| && OutcomeOf(run[m], events[m], ttl).OtpSent? && Sent(events[m], run[k], c)
  {
    RunSteps(run, events, ttl, k - 1);
    if c < |run[k - 1].challenges| {
      m := ChallengeWasSent(run, events, ttl, k - 1, c);
      StepKeepsRecords(run[k - 1], events[k - 1], ttl);
      SentStays(events[m], run[k - 1], run[k], c);
    } else {
      m := k - 1;
      NewChallengeIsSent(run[m], events[m], ttl, c);
    }
  }

  /** Call m issued challenge c. */
  ghost predicate IssuedAt(run: seq<Tables>, events: seq<Event>, ttl: Time, m: nat, c: nat) {
    && m < |events| && |run| == |events| + 1 && events[m].call.SendOtp?
    && OutcomeOf(run[m], events[m], ttl).OtpSent? && c == |run[m].challenges|
  }

  lemma {:induction false} RecordsGrow(run: seq<Tables>, events: seq<Event>, ttl: Time, j: nat, k: nat)
    requires IsRun(run, events, ttl) && j <= k < |run|
    ensures |run[j].challenges| <= |run[k].challenges|
    decreases k - j
  {
    if j < k {
      RecordsGrow(run, events, ttl, j, k - 1);
      RunSteps(run, events, ttl, k - 1);
      StepKeepsRecords(run[k - 1], events[k - 1], ttl);
    }
  }

  lemma SendCreates(t: Tables, e: Event, ttl: Time)
    requires e.call.SendOtp? && OutcomeOf(t, e, ttl).OtpSent?
    ensures Sent(e, Step(t, e.call, ttl, e.at).0, |t.challenges|)
  {
  }

  lemma {:induction false} SentThroughout(run: seq<Tables>, events: seq<Event>, ttl: Time, m: nat, c: nat, k: nat)
    requires IsRun(run, events, ttl) && IssuedAt(run, events, ttl, m, c) && m < k < |run|
    ensures Sent(events[m], run[k], c)
    decreases k
  {
    RunSteps(run, events, ttl, k - 1);
    if k == m + 1 {
      SendCreates(run[m], events[m], ttl);
    } else {
      SentThroughout(run, events, ttl, m, c, k - 1);
      StepKeepsRecords(run[k - 1], events[k - 1], ttl);
      SentStays(events[m], run[k - 1], run[k], c);
    }
  }

  // ---------- Phone numbers ----------

  predicate PhonesUnique(t: Tables) {
    forall u, v :: 0 <= u < v < |t.users| ==> t.users[u].phone != t.users[v].phone
  }

  predicate UsersKnown(t: Tables) {
    forall c :: 0 <= c < |t.challenges| ==> t.challenges[c].userId < |t.users|
  }

  lemma StepKeepsPhones(t: Tables, e: Event, ttl: Time)
    requires PhonesUnique(t) && UsersKnown(t)
    ensures PhonesUnique(Step(t, e.call, ttl, e.at).0) && UsersKnown(Step(t, e.call, ttl, e.at).0)
  {
    match e.call
    case SendOtp(_, _) => {}
    case VerifyOtp(_, _, _, _, _) => {}
    case _ => assert Step(t, e.call, ttl, e.at).0.users == t.users;
  }

  lemma {:induction false} ReachablePhones(run: seq<Tables>, events: seq<Event>, ttl: Time, k: nat)
    requires IsRun(run, events, ttl) && k < |run|
    ensures PhonesUnique(run[k]) && UsersKnown(run[k])
  {
    if k > 0 {
      ReachablePhones(run, events, ttl, k - 1);
      RunSteps(run, events, ttl, k - 1);
      StepKeepsPhones(run[k - 1], events[k - 1], ttl);
    }
  }

  lemma PhoneFindsUser(t: Tables, u: nat)
    requires PhonesUnique(t) && u < |t.users|
    ensures UserByPhone(t.users, t.users[u].phone) == Some(u)
  {
    assert UserByPhone(t.users, t.users[u].phone).Some?;
  }

  // ---------- What a verification answers ----------

  /** Challenge c is the newest open one of the user whose number is being verified. */
  predicate Asks(t: Tables, e: Event, c: nat) {
    && e.call.VerifyOtp? && c < |t.challenges| && t.challenges[c].userId < |t.users|
    && t.users[t.challenges[c].userId].phone == e.call.phone
    && t.challenges[c].consumedAt.None?
    && (forall d :: c < d < |t.challenges| && t.challenges[d].userId == t.challenges[c].userId ==> t.challenges[d].consumedAt.Some?)
  }

  predicate Expired(t: Tables, e: Event, c: nat)
    requires c < |t.challenges|
  {
    e.at - t.challenges[c].createdAt > 5 * 60 * 1000
  }

  /** The call is checked against challenge c: it has neither expired nor had five wrong guesses. */
  predicate Faces(t: Tables, e: Event, c: nat) {
    Asks(t, e, c) && !Expired(t, e, c) && t.challenges[c].attempts < 5
  }

  predicate SoundChallenges(t: Tables) {
    && PhonesUnique(t) && UsersKnown(t) && AllWellFormed(t.challenges)
    && (forall c :: 0 <= c < |t.challenges| ==> t.challenges[c].codeHash.userId == t.challenges[c].userId)
  }

  lemma AskedIsLatest(t: Tables, e: Event, c: nat)
    requires PhonesUnique(t) && Asks(t, e, c)
    ensures UserByPhone(t.users, e.call.phone) == Some(t.challenges[c].userId)
    ensures LatestOpen(t.challenges, t.challenges[c].userId) == Some(c)
  {
    PhoneFindsUser(t, t.challenges[c].userId);
    assert Open(t.challenges[c], t.challenges[c].userId);
  }

  predicate TokenTaken(t: Tables, token: nat) {
    exists i :: 0 <= i < |t.sessions| && t.sessions[i].refreshTokenHash == TokenHash(token)
  }

  /** Every answer to a verification for a number with an open challenge c, and what it writes to c. */
  lemma VerificationAnswers(t: Tables, e: Event, ttl: Time, c: nat)
    requires SoundChallenges(t) && Asks(t, e, c)
    ensures var (t', r) := Step(t, e.call, ttl, e.at); var right := t.challenges[c].codeHash.code == e.call.code;
      if Expired(t, e, c) then r == OtpExpired && t' == t
      else if t.challenges[c].attempts >= 5 then r == AttemptsExhausted && t' == t
      else if !right then
        r == OtpInvalid && t' == t.(challenges := t'.challenges, wrongCodes := t.wrongCodes + [WrongCode(c, e.at)])
        && t'.challenges == t.challenges[c := t.challenges[c].(attempts := t.challenges[c].attempts + 1)]
      else if TokenTaken(t, e.call.token) then r == UniqueViolation && t' == t
      else r == SignedIn(c, |t.sessions|) && t'.challenges == t.challenges[c := t.challenges[c].(consumedAt := Some(e.at))]
  {
    AskedIsLatest(t, e, c);
    assert WellFormed(t.challenges[c]);
  }

  lemma NothingToVerify(t: Tables, e: Event, ttl: Time)
    requires e.call.VerifyOtp? && UsersKnown(t) && forall c :: 0 <= c < |t.challenges| ==> !Asks(t, e, c)
    ensures Step(t, e.call, ttl, e.at) == (t, OtpInvalid)
  {
    var user := UserByPhone(t.users, e.call.phone);
    if user.Some? && LatestOpen(t.challenges, user.value).Some? {
      var c := LatestOpen(t.challenges, user.value).value;
      forall d | c < d < |t.challenges| && t.challenges[d].userId == user.value ensures t.challenges[d].consumedAt.Some? {
        assert !Open(t.challenges[d], user.value);
      }
      assert Asks(t, e, c);
    }
  }

  lemma ReachableSound(run: seq<Tables>, events: seq<Event>, ttl: Time, k: nat)
    requires IsRun(run, events, ttl) && k < |run|
    ensures SoundChallenges(run[k])
  {
    ReachablePhones(run, events, ttl, k);
    ReachableChallenges(run, events, ttl, k);
    forall c: nat | c < |run[k].challenges| ensures run[k].challenges[c].codeHash.userId == run[k].challenges[c].userId {
      var m := ChallengeWasSent(run, events, ttl, k, c);
    }
  }

  /**
   In every run the code that was sent signs in while its challenge is the newest open one, has
   not expired and has had fewer than five wrong guesses; only a repeated token can prevent it.
   */
  lemma RightCodeSignsIn(run: seq<Tables>, events: seq<Event>, ttl: Time, m: nat, c: nat, k: nat)
    requires IsRun(run, events, ttl) && IssuedAt(run, events, ttl, m, c) && m < k < |events|
    requires Faces(run[k], events[k], c) && events[k].call.code == events[m].call.code
    ensures OutcomeOf(run[k], events[k], ttl) ==
      if TokenTaken(run[k], events[k].call.token) then UniqueViolation else SignedIn(c, |run[k].sessions|)
  {
    ReachableSound(run, events, ttl, k);
    SentThroughout(run, events, ttl, m, c, k);
    VerificationAnswers(run[k], events[k], ttl, c);
  }

  // ---------- Wrong guesses ----------

  /** How many of the first k calls were checked against challenge c with another code than call m sent. */
  function Guesses(run: seq<Tables>, events: seq<Event>, m: nat, c: nat, k: nat): nat
    requires k <= |events| < |run| && m < |events| && events[m].call.SendOtp?
  {
    if k == 0 then 0
    else
      Guesses(run, events, m, c, k - 1)
      + (if Faces(run[k - 1], events[k - 1], c) && events[k - 1].call.code != events[m].call.code then 1 else 0)
  }

  lemma OtherCallsKeepAttempts(t: Tables, e: Event, ttl: Time, c: nat)
    requires SoundChallenges(t) && c < |t.challenges| && !e.call.VerifyOtp?
    ensures var cs := Step(t, e.call, ttl, e.at).0.challenges; c < |cs| && cs[c].attempts == t.challenges[c].attempts
  {
  }

  lemma VerificationCounts(t: Tables, e: Event, ttl: Time, c: nat)
    requires SoundChallenges(t) && c < |t.challenges| && e.call.VerifyOtp?
    ensures var cs := Step(t, e.call, ttl, e.at).0.challenges;
      c < |cs| && cs[c].attempts == t.challenges[c].attempts
        + (if Faces(t, e, c) && t.challenges[c].codeHash.code != e.call.code then 1 else 0)
  {
    if d: nat :| d < |t.challenges| && Asks(t, e, d) {
      VerificationAnswers(t, e, ttl, d);
      if Asks(t, e, c) {
        AskedIsLatest(t, e, c);
        AskedIsLatest(t, e, d);
      }
    } else {
      NothingToVerify(t, e, ttl);
    }
  }

  lemma {:induction false} NoGuessBefore(run: seq<Tables>, events: seq<Event>, ttl: Time, m: nat, c: nat, k: nat)
    requires IsRun(run, events, ttl) && IssuedAt(run, events, ttl, m, c) && k <= m + 1
    ensures Guesses(run, events, m, c, k) == 0
  {
    if k > 0 {
      NoGuessBefore(run, events, ttl, m, c, k - 1);
      RecordsGrow(run, events, ttl, k - 1, m);
    }
  }

  /** No wrong guess goes uncounted: guesses made, attempts stored and wrong codes recorded agree, in every run. */
  lemma {:induction false} GuessesAreCounted(run: seq<Tables>, events: seq<Event>, ttl: Time, m: nat, c: nat, k: nat)
    requires IsRun(run, events, ttl) && IssuedAt(run, events, ttl, m, c) && m < k < |run|
    ensures c < |run[k].challenges| && Guesses(run, events, m, c, k) == run[k].challenges[c].attempts
    ensures Guesses(run, events, m, c, k) == WrongOn(run[k].wrongCodes, c)
    decreases k
  {
    SentThroughout(run, events, ttl, m, c, k);
    AttemptsAreRecorded(run, events, ttl, k, c);
    if k == m + 1 {
      NoGuessBefore(run, events, ttl, m, c, k);
      RunSteps(run, events, ttl, m);
      FreshChallenge(run[m], events[m], ttl);
    } else {
      GuessesAreCounted(run, events, ttl, m, c, k - 1);
      NextGuess(run, events, ttl, m, c, k - 1);
    }
  }

  lemma AttemptsAreRecorded(run: seq<Tables>, events: seq<Event>, ttl: Time, k: nat, c: nat)
    requires IsRun(run, events, ttl) && k < |run| && c < |run[k].challenges|
    ensures run[k].challenges[c].attempts == WrongOn(run[k].wrongCodes, c)
  {
    ReachableChallenges(run, events, ttl, k);
  }

  lemma NextGuess(run: seq<Tables>, events: seq<Event>, ttl: Time, m: nat, c: nat, k: nat)
    requires IsRun(run, events, ttl) && IssuedAt(run, events, ttl, m, c) && m < k < |events|
    ensures c < |run[k].challenges| && c < |run[k + 1].challenges|
    ensures run[k + 1].challenges[c].attempts == run[k].challenges[c].attempts
      + (if Faces(run[k], events[k], c) && events[k].call.code != events[m].call.code then 1 else 0)
  {
    SentThroughout(run, events, ttl, m, c, k);
    ReachableSound(run, events, ttl, k);
    RunSteps(run, events, ttl, k);
    if events[k].call.VerifyOtp? {
      VerificationCounts(run[k], events[k], ttl, c);
    } else {
      OtherCallsKeepAttempts(run[k], events[k], ttl, c);
    }
  }

  lemma FreshChallenge(t: Tables, e: Event, ttl: Time)
    requires e.call.SendOtp? && OutcomeOf(t, e, ttl).OtpSent?
    ensures var cs := Step(t, e.call, ttl, e.at).0.challenges; |cs| == |t.challenges| + 1 && cs[|t.challenges|].attempts == 0
  {
  }

  /** In every run a code is guessed wrong at most five times; the fifth makes every later verification of it fail. */
  lemma AtMostFiveGuesses(run: seq<Tables>, events: seq<Event>, ttl: Time, m: nat, c: nat, k: nat)
    requires IsRun(run, events, ttl) && IssuedAt(run, events, ttl, m, c) && k <= |events|
    ensures Guesses(run, events, m, c, k) <= 5
    ensures k < |events| && Asks(run[k], events[k], c) && !Expired(run[k], events[k], c) && Guesses(run, events, m, c, k) == 5
        ==> OutcomeOf(run[k], events[k], ttl) == AttemptsExhausted && Step(run[k], events[k].call, ttl, events[k].at).0 == run[k]
  {
    if k <= m {
      NoGuessBefore(run, events, ttl, m, c, k);
    } else {
      GuessesAreCounted(run, events, ttl, m, c, k);
      ReachableSound(run, events, ttl, k);
      assert WellFormed(run[k].challenges[c]);
      if k < |events| && Asks(run[k], events[k], c) { VerificationAnswers(run[k], events[k], ttl, c); }
    }
  }

  /** The call guesses a code of this user wrong. */
  predicate GuessesWrong(t: Tables, e: Event, userId: nat) {
    exists c :: 0 <= c < |t.challenges| && WrongGuess(t, e, userId, c)
  }

  predicate WrongGuess(t: Tables, e: Event, userId: nat, c: nat) {
    Faces(t, e, c) && t.challenges[c].userId == userId && t.challenges[c].codeHash.code != e.call.code
  }

  /** How many of the first k calls guessed a code of the user wrong within a closed interval. */
  function UserGuesses(run: seq<Tables>, events: seq<Event>, userId: nat, lo: Time, hi: Time, k: nat): nat
    requires k <= |events| < |run|
  {
    if k == 0 then 0
    else
      UserGuesses(run, events, userId, lo, hi, k - 1)
      + (if GuessesWrong(run[k - 1], events[k - 1], userId) && lo <= events[k - 1].at <= hi then 1 else 0)
  }

  lemma {:induction false} WrongWithinStays(cs: seq<Challenge>, cs': seq<Challenge>, wrong: seq<WrongCode>, userId: nat, lo: Time, hi: Time)
    requires |cs| <= |cs'| && forall c :: 0 <= c < |cs| ==> cs'[c].userId == cs[c].userId
    requires forall w :: 0 <= w < |wrong| ==> wrong[w].challenge < |cs|
    ensures WrongWithin(cs', wrong, userId, lo, hi) == WrongWithin(cs, wrong, userId, lo, hi)
  {
    if wrong != [] {
      WrongWithinStays(cs, cs', wrong[..|wrong| - 1], userId, lo, hi);
      assert wrong[|wrong| - 1].challenge < |cs|;
    }
  }

  predicate Records(t: Tables, e: Event, wrong: seq<WrongCode>, userId: nat, c: nat) {
    || (wrong == t.wrongCodes && !GuessesWrong(t, e, userId))
    || (c < |t.challenges| && wrong == t.wrongCodes + [WrongCode(c, e.at)]
        && (GuessesWrong(t, e, userId) <==> t.challenges[c].userId == userId))
  }

  /** One call records one wrong code if it guesses wrong, and none otherwise. */
  lemma RecordsWrongGuess(t: Tables, e: Event, ttl: Time, userId: nat) returns (c: nat)
    requires SoundChallenges(t)
    ensures Records(t, e, Step(t, e.call, ttl, e.at).0.wrongCodes, userId, c)
  {
    c := 0;
    if e.call.VerifyOtp? {
      if d: nat :| d < |t.challenges| && Asks(t, e, d) {
        c := d;
        VerificationAnswers(t, e, ttl, d);
        forall d' | 0 <= d' < |t.challenges| && Asks(t, e, d') ensures d' == d {
          AskedIsLatest(t, e, d);
          AskedIsLatest(t, e, d');
        }
        assert WrongGuess(t, e, t.challenges[d].userId, d) <==> Step(t, e.call, ttl, e.at).0.wrongCodes != t.wrongCodes;
      } else {
        NothingToVerify(t, e, ttl);
      }
    }
  }

  lemma {:induction false} UserGuessesAreRecorded(
    run: seq<Tables>, events: seq<Event>, ttl: Time, userId: nat, lo: Time, hi: Time, k: nat)
    requires IsRun(run, events, ttl) && k < |run|
    ensures UserGuesses(run, events, userId, lo, hi, k) == WrongWithin(run[k].challenges, run[k].wrongCodes, userId, lo, hi)
  {
    if k > 0 {
      UserGuessesAreRecorded(run, events, ttl, userId, lo, hi, k - 1);
      NextCallRecords(run, events, ttl, userId, lo, hi, k - 1);
    }
  }

  lemma NextCallRecords(run: seq<Tables>, events: seq<Event>, ttl: Time, userId: nat, lo: Time, hi: Time, k: nat)
    requires IsRun(run, events, ttl) && k < |events|
    ensures WrongWithin(run[k + 1].challenges, run[k + 1].wrongCodes, userId, lo, hi)
         == WrongWithin(run[k].challenges, run[k].wrongCodes, userId, lo, hi)
            + (if GuessesWrong(run[k], events[k], userId) && lo <= events[k].at <= hi then 1 else 0)
  {
    ReachableSound(run, events, ttl, k);
    ReachableChallenges(run, events, ttl, k);
    RunSteps(run, events, ttl, k);
    StepKeepsRecords(run[k], events[k], ttl);
    var c := RecordsWrongGuess(run[k], events[k], ttl, userId);
    OneMoreRecord(run[k], events[k], run[k + 1], userId, lo, hi, c);
  }

  lemma OneMoreRecord(t: Tables, e: Event, t': Tables, userId: nat, lo: Time, hi: Time, c: nat)
    requires RecordsStay(t, t') && WrongWithinLife(t.challenges, t.wrongCodes)
    requires Records(t, e, t'.wrongCodes, userId, c)
    ensures WrongWithin(t'.challenges, t'.wrongCodes, userId, lo, hi) == WrongWithin(t.challenges, t.wrongCodes, userId, lo, hi)
      + (if GuessesWrong(t, e, userId) && lo <= e.at <= hi then 1 else 0)
  {
    forall w | 0 <= w < |t.wrongCodes| ensures t.wrongCodes[w].challenge < |t.challenges| {
      assert HitsLife(t.challenges, t.wrongCodes[w]);
    }
    forall d | 0 <= d < |t.challenges| ensures t'.challenges[d].userId == t.challenges[d].userId {
      assert SameChallenge(t.challenges[d], t'.challenges[d]);
    }
    WrongWithinStays(t.challenges, t'.challenges, t.wrongCodes, userId, lo, hi);
    assert (t.wrongCodes + [WrongCode(c, e.at)])[..|t.wrongCodes|] == t.wrongCodes;
  }

  /** In every run, any closed 10-minute window holds at most 25 wrong guesses at a user's codes. */
  lemma AtMostTwentyFiveGuesses(run: seq<Tables>, events: seq<Event>, ttl: Time, k: nat, userId: nat, lo: Time, hi: Time)
    requires IsRun(run, events, ttl) && k < |run| && hi - lo <= 10 * 60 * 1000
    ensures UserGuesses(run, events, userId, lo, hi, k) <= 25
  {
    UserGuessesAreRecorded(run, events, ttl, userId, lo, hi, k);
    AtMostTwentyFiveWrongCodes(run, events, ttl, k, userId, lo, hi);
  }
}
