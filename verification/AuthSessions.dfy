/**
 Refresh-token families over every run of serialised calls: one chain per family with one
 live end, tokens that work once, and a replay or device revocation that is final.
 */
module AuthSessions {
  import opened Prelude
  import opened AuthTables

  // ---------- The invariant of the session table ----------

  predicate SameFamily(s: seq<Session>, i: nat, j: nat)
    requires i < |s| && j < |s|
  {
    s[i].familyId == s[j].familyId
  }

  predicate TokensUnique(s: seq<Session>) {
    forall i, j :: 0 <= i < j < |s| ==> s[i].refreshTokenHash != s[j].refreshTokenHash
  }

  /** A family belongs to one user on one device. */
  predicate OneOwner(s: seq<Session>) {
    forall i, j :: 0 <= i < j < |s| && SameFamily(s, i, j) ==> s[i].userId == s[j].userId && s[i].deviceId == s[j].deviceId
  }

  /** Every member of a family but the newest has been used. */
  predicate OlderAreUsed(s: seq<Session>) {
    forall i, j :: 0 <= i < j < |s| && SameFamily(s, i, j) ==> s[i].usedAt.Some?
  }

  /** A used session has been replaced by a later member of its family. */
  predicate UsedAreReplaced(s: seq<Session>) {
    forall i {:trigger Replaced(s, i)} :: 0 <= i < |s| && s[i].usedAt.Some? ==> Replaced(s, i)
  }

  predicate Replaced(s: seq<Session>, i: nat)
    requires i < |s|
  {
    exists j :: i < j < |s| && SameFamily(s, i, j)
  }

  /** rotatedFrom names the family's previous member; only the first member has none. */
  predicate SingleChain(s: seq<Session>) {
    forall j :: 0 <= j < |s| ==> ChainAt(s, j)
  }

  predicate ChainAt(s: seq<Session>, j: nat)
    requires j < |s|
  {
    match s[j].rotatedFrom
    case None => forall i :: 0 <= i < j ==> !SameFamily(s, i, j)
    case Some(p) => p < j && SameFamily(s, p, j) && forall i :: p < i < j ==> !SameFamily(s, i, j)
  }

  predicate SessionsOk(s: seq<Session>) {
    TokensUnique(s) && OneOwner(s) && OlderAreUsed(s) && UsedAreReplaced(s) && SingleChain(s)
  }

  // ---------- How one call may change the table ----------

  /** Rows persist, keep their identity, stay used once used and revoked once revoked. */
  ghost predicate Extends(s: seq<Session>, s': seq<Session>) {
    |s| <= |s'| && forall i {:trigger s'[i]} :: 0 <= i < |s| ==>
      && s'[i] == s[i].(usedAt := s'[i].usedAt, revokedAt := s'[i].revokedAt)
      && (s[i].usedAt.Some? ==> s'[i].usedAt == s[i].usedAt)
      && (s[i].revokedAt.Some? ==> s'[i].revokedAt == s[i].revokedAt)
  }

  predicate OnlyRevokes(s: seq<Session>, s': seq<Session>) {
    |s| == |s'| && forall i {:trigger s'[i]} :: 0 <= i < |s| ==>
      s'[i] == s[i] || (s[i].revokedAt.None? && s'[i] == s[i].(revokedAt := s'[i].revokedAt))
  }

  lemma SameFamilies(s: seq<Session>, s': seq<Session>)
    requires |s| <= |s'| && forall i {:trigger s'[i]} :: 0 <= i < |s| ==> s'[i].familyId == s[i].familyId
    ensures forall i, j {:trigger SameFamily(s', i, j)} {:trigger SameFamily(s, i, j)} ::
      0 <= i < |s| && 0 <= j < |s| ==> SameFamily(s', i, j) == SameFamily(s, i, j)
  {
  }

  lemma RevokingKeepsInvariant(s: seq<Session>, s': seq<Session>)
    requires SessionsOk(s) && OnlyRevokes(s, s')
    ensures SessionsOk(s') && Extends(s, s')
  {
    SameFamilies(s, s');
    SameChain(s, s');
    SameUses(s, s');
  }

  lemma SameUses(s: seq<Session>, s': seq<Session>)
    requires UsedAreReplaced(s) && OlderAreUsed(s) && OnlyRevokes(s, s')
    ensures UsedAreReplaced(s') && OlderAreUsed(s')
  {
    SameFamilies(s, s');
    forall i | 0 <= i < |s'| && s'[i].usedAt.Some? ensures Replaced(s', i) {
      assert s[i].usedAt.Some? && Replaced(s, i);
      var j :| i < j < |s| && SameFamily(s, i, j);
      assert SameFamily(s', i, j);
    }
  }

  lemma SameChain(s: seq<Session>, s': seq<Session>)
    requires SingleChain(s) && OnlyRevokes(s, s')
    ensures SingleChain(s')
  {
    SameFamilies(s, s');
    forall j | 0 <= j < |s'| ensures ChainAt(s', j) {
      assert ChainAt(s, j);
    }
  }

  /** A sign-in opens a family of its own. */
  lemma NewFamilyKeepsInvariant(s: seq<Session>, root: Session)
    requires SessionsOk(s) && root.rotatedFrom.None? && root.usedAt.None?
    requires forall i :: 0 <= i < |s| ==> s[i].familyId != root.familyId && s[i].refreshTokenHash != root.refreshTokenHash
    ensures SessionsOk(s + [root]) && Extends(s, s + [root])
  {
    var s' := s + [root];
    SameFamilies(s, s');
    forall i | 0 <= i < |s'| && s'[i].usedAt.Some? ensures Replaced(s', i) {
      assert Replaced(s, i);
      var j :| i < j < |s| && SameFamily(s, i, j);
      assert SameFamily(s', i, j);
    }
    forall j | 0 <= j < |s'| ensures ChainAt(s', j) {
      if j < |s| { assert ChainAt(s, j); }
    }
  }

  /** A rotation marks the family's live end used and appends its successor. */
  lemma RotationKeepsInvariant(s: seq<Session>, i: nat, now: Time, next: Session)
    requires SessionsOk(s) && i < |s| && s[i].usedAt.None?
    requires next.familyId == s[i].familyId && next.userId == s[i].userId && next.deviceId == s[i].deviceId
    requires next.rotatedFrom == Some(i) && next.usedAt.None?
    requires forall k :: 0 <= k < |s| ==> s[k].refreshTokenHash != next.refreshTokenHash
    ensures SessionsOk(s[i := s[i].(usedAt := Some(now))] + [next])
    ensures Extends(s, s[i := s[i].(usedAt := Some(now))] + [next])
  {
    var s' := s[i := s[i].(usedAt := Some(now))] + [next];
    SameFamilies(s, s');
    // i is the newest member of its family, because every older one is used
    forall k | i < k < |s| ensures !SameFamily(s, i, k) && !SameFamily(s', k, |s|) {
    }
    forall k | 0 <= k < |s'| && s'[k].usedAt.Some? ensures Replaced(s', k) {
      if k == i {
        assert SameFamily(s', k, |s|);
      } else {
        assert Replaced(s, k);
        var j :| k < j < |s| && SameFamily(s, k, j);
        assert SameFamily(s', k, j);
      }
    }
    forall a, b | 0 <= a < b < |s'| && SameFamily(s', a, b)
      ensures s'[a].usedAt.Some? && s'[a].userId == s'[b].userId && s'[a].deviceId == s'[b].deviceId
    {
      if b < |s| {
        assert SameFamily(s, a, b);
      } else if a != i {
        assert SameFamily(s, if a < i then a else i, if a < i then i else a);
      }
    }
    RotatedChain(s, s', i);
  }

  lemma RotatedChain(s: seq<Session>, s': seq<Session>, i: nat)
    requires SingleChain(s) && i < |s| && |s'| == |s| + 1
    requires forall k {:trigger s'[k]} :: 0 <= k < |s| ==> s'[k].familyId == s[k].familyId && s'[k].rotatedFrom == s[k].rotatedFrom
    requires s'[|s|].rotatedFrom == Some(i) && SameFamily(s', i, |s|)
    requires forall k :: i < k < |s| ==> !SameFamily(s', k, |s|)
    ensures SingleChain(s')
  {
    SameFamilies(s, s');
    forall j | 0 <= j < |s'| ensures ChainAt(s', j) {
      if j < |s| { assert ChainAt(s, j); }
    }
  }

  /** Every service call keeps the invariant and only extends the table. */
  lemma StepKeepsSessions(t: Tables, call: Call, ttl: Time, now: Time)
    requires SessionsOk(t.sessions) && Fresh(t, call)
    ensures SessionsOk(Step(t, call, ttl, now).0.sessions)
    ensures Extends(t.sessions, Step(t, call, ttl, now).0.sessions)
  {
    var s, s' := t.sessions, Step(t, call, ttl, now).0.sessions;
    if s' == s {
    } else if |s'| == |s| {
      assert OnlyRevokes(s, s');
      RevokingKeepsInvariant(s, s');
    } else {
      match call
      case VerifyOtp(_, _, _, _, _) =>
        assert s' == s + [s'[|s|]];
        NewFamilyKeepsInvariant(s, s'[|s|]);
      case Refresh(token, newToken) =>
        var i := SessionByHash(s, TokenHash(token)).value;
        var used := s[i := s[i].(usedAt := Some(now))];
        forall k | 0 <= k < |s| ensures s[k].refreshTokenHash != TokenHash(newToken) {
          assert used[k].refreshTokenHash == s[k].refreshTokenHash;
        }
        RotationKeepsInvariant(s, i, now, s'[|s|]);
    }
  }

  // ---------- Runs ----------

  lemma TransitionKeepsSessions(t: Tables, e: Event, ttl: Time, t': Tables)
    requires SessionsOk(t.sessions) && Transition(t, e, ttl, t')
    ensures SessionsOk(t'.sessions) && Extends(t.sessions, t'.sessions)
  {
    StepKeepsSessions(t, e.call, ttl, e.at);
  }

  lemma {:induction false} ReachableSessions(run: seq<Tables>, events: seq<Event>, ttl: Time, k: nat)
    requires IsRun(run, events, ttl) && k < |run|
    ensures SessionsOk(run[k].sessions)
  {
    if k > 0 {
      ReachableSessions(run, events, ttl, k - 1);
      RunSteps(run, events, ttl, k - 1);
      TransitionKeepsSessions(run[k - 1], events[k - 1], ttl, run[k]);
    }
  }

  lemma ExtendsTransitive(a: seq<Session>, b: seq<Session>, c: seq<Session>)
    requires Extends(a, b) && Extends(b, c)
    ensures Extends(a, c)
  {
    forall i | 0 <= i < |a| ensures
      && c[i] == a[i].(usedAt := c[i].usedAt, revokedAt := c[i].revokedAt)
      && (a[i].usedAt.Some? ==> c[i].usedAt == a[i].usedAt)
      && (a[i].revokedAt.Some? ==> c[i].revokedAt == a[i].revokedAt)
    {
      assert b[i] == a[i].(usedAt := b[i].usedAt, revokedAt := b[i].revokedAt);
    }
  }

  lemma OneStepExtends(run: seq<Tables>, events: seq<Event>, ttl: Time, k: nat)
    requires IsRun(run, events, ttl) && k < |events|
    ensures Extends(run[k].sessions, run[k + 1].sessions)
  {
    ReachableSessions(run, events, ttl, k);
    RunSteps(run, events, ttl, k);
    TransitionKeepsSessions(run[k], events[k], ttl, run[k + 1]);
  }

  lemma {:induction false} RunExtends(run: seq<Tables>, events: seq<Event>, ttl: Time, j: nat, k: nat)
    requires IsRun(run, events, ttl) && j <= k < |run|
    ensures Extends(run[j].sessions, run[k].sessions)
    decreases k - j
  {
    if j < k {
      RunExtends(run, events, ttl, j, k - 1);
      OneStepExtends(run, events, ttl, k - 1);
      ExtendsTransitive(run[j].sessions, run[k - 1].sessions, run[k].sessions);
    }
  }

  predicate HasFamily(s: seq<Session>, family: nat) {
    exists i :: 0 <= i < |s| && s[i].familyId == family
  }

  /** The one unused session of a family: its newest member. */
  function LiveEnd(s: seq<Session>, family: nat): (end: nat)
    requires HasFamily(s, family)
    ensures end < |s| && s[end].familyId == family
    ensures forall i :: end < i < |s| ==> s[i].familyId != family
  {
    if s[|s| - 1].familyId == family then |s| - 1 else LiveEnd(s[..|s| - 1], family)
  }

  /** In every reachable state each family has exactly one unused session, at the end of its chain. */
  lemma ExactlyOneUnused(run: seq<Tables>, events: seq<Event>, ttl: Time, k: nat, family: nat)
    requires IsRun(run, events, ttl) && k < |run| && HasFamily(run[k].sessions, family)
    ensures var s := run[k].sessions;
      forall i :: 0 <= i < |s| && s[i].familyId == family ==> (s[i].usedAt.None? <==> i == LiveEnd(s, family))
  {
    ReachableSessions(run, events, ttl, k);
    LiveEndIsUnused(run[k].sessions, family);
  }

  lemma LiveEndIsUnused(s: seq<Session>, family: nat)
    requires OlderAreUsed(s) && UsedAreReplaced(s) && HasFamily(s, family)
    ensures forall i :: 0 <= i < |s| && s[i].familyId == family ==> (s[i].usedAt.None? <==> i == LiveEnd(s, family))
  {
    var end := LiveEnd(s, family);
    assert s[end].usedAt.Some? ==> Replaced(s, end);
    forall i | end < i < |s| ensures !SameFamily(s, end, i) {
    }
    forall i | 0 <= i < end && s[i].familyId == family ensures SameFamily(s, i, end) {
    }
  }

  /** Within a family, users and devices agree and each row was rotated from the one before it. */
  lemma FamilyIsOneChain(run: seq<Tables>, events: seq<Event>, ttl: Time, k: nat, i: nat, j: nat)
    requires IsRun(run, events, ttl) && k < |run| && i < j < |run[k].sessions|
    requires run[k].sessions[i].familyId == run[k].sessions[j].familyId
    ensures var s := run[k].sessions;
      && s[i].userId == s[j].userId && s[i].deviceId == s[j].deviceId && s[i].usedAt.Some?
      && s[j].rotatedFrom.Some? && i <= s[j].rotatedFrom.value < j
      && s[s[j].rotatedFrom.value].familyId == s[j].familyId
      && ((forall m :: i < m < j ==> s[m].familyId != s[j].familyId) ==> s[j].rotatedFrom == Some(i))
  {
    ReachableSessions(run, events, ttl, k);
    ChainBackTo(run[k].sessions, i, j);
  }

  lemma ChainBackTo(s: seq<Session>, i: nat, j: nat)
    requires OneOwner(s) && OlderAreUsed(s) && SingleChain(s) && i < j < |s| && s[i].familyId == s[j].familyId
    ensures s[i].userId == s[j].userId && s[i].deviceId == s[j].deviceId && s[i].usedAt.Some?
    ensures s[j].rotatedFrom.Some? && i <= s[j].rotatedFrom.value < j
    ensures s[s[j].rotatedFrom.value].familyId == s[j].familyId
    ensures (forall m :: i < m < j ==> s[m].familyId != s[j].familyId) ==> s[j].rotatedFrom == Some(i)
  {
    assert SameFamily(s, i, j) && ChainAt(s, j);
  }

  lemma HashFindsSession(s: seq<Session>, i: nat)
    requires TokensUnique(s) && i < |s|
    ensures SessionByHash(s, s[i].refreshTokenHash) == Some(i)
  {
    assert SessionByHash(s, s[i].refreshTokenHash).Some?;
  }

  /** Every session of the family is revoked. */
  predicate Dead(s: seq<Session>, family: nat) {
    forall i :: 0 <= i < |s| && s[i].familyId == family ==> s[i].revokedAt.Some?
  }

  /** A successful refresh uses up the session it was presented for. */
  lemma RefreshUsesSession(t: Tables, e: Event, ttl: Time, t': Tables)
    requires Transition(t, e, ttl, t') && e.call.Refresh? && OutcomeOf(t, e, ttl).Refreshed?
    ensures var i := OutcomeOf(t, e, ttl).rotatedId;
      i < |t'.sessions| && t'.sessions[i].usedAt.Some? && t'.sessions[i].refreshTokenHash == TokenHash(e.call.token)
  {
  }

  lemma UsedTokenIsReplay(t: Tables, e: Event, ttl: Time, i: nat)
    requires TokensUnique(t.sessions) && e.call.Refresh? && i < |t.sessions|
    requires t.sessions[i].refreshTokenHash == TokenHash(e.call.token) && t.sessions[i].usedAt.Some?
    ensures OutcomeOf(t, e, ttl) == ReplayDetected(i)
  {
    HashFindsSession(t.sessions, i);
  }

  /** A detected replay revokes every existing session of the family. */
  lemma ReplayKillsFamily(t: Tables, e: Event, ttl: Time, t': Tables)
    requires Transition(t, e, ttl, t') && OutcomeOf(t, e, ttl).ReplayDetected?
    ensures var i := OutcomeOf(t, e, ttl).replayedId;
      i < |t'.sessions| == |t.sessions| && t'.sessions[i].familyId == t.sessions[i].familyId
      && Dead(t'.sessions, t'.sessions[i].familyId)
  {
    var i := OutcomeOf(t, e, ttl).replayedId;
    assert t'.sessions == RevokeFamily(t.sessions, t.sessions[i].familyId, e.at);
  }

  /**
   A refresh token succeeds at most once: presenting it again at any later time is detected
   as a replay and leaves its whole family revoked.
   */
  lemma TokenWorksOnce(run: seq<Tables>, events: seq<Event>, ttl: Time, j: nat, k: nat)
    requires IsRun(run, events, ttl) && j < k < |events|
    requires events[j].call.Refresh? && events[k].call.Refresh? && events[j].call.token == events[k].call.token
    requires OutcomeOf(run[j], events[j], ttl).Refreshed?
    ensures var i := OutcomeOf(run[j], events[j], ttl).rotatedId;
      && OutcomeOf(run[k], events[k], ttl) == ReplayDetected(i)
      && i < |run[k + 1].sessions| && Dead(run[k + 1].sessions, run[k + 1].sessions[i].familyId)
  {
    RunSteps(run, events, ttl, j);
    RefreshUsesSession(run[j], events[j], ttl, run[j + 1]);
    RunExtends(run, events, ttl, j + 1, k);
    ReachableSessions(run, events, ttl, k);
    UsedTokenIsReplay(run[k], events[k], ttl, OutcomeOf(run[j], events[j], ttl).rotatedId);
    RunSteps(run, events, ttl, k);
    ReplayKillsFamily(run[k], events[k], ttl, run[k + 1]);
  }

  /** Revoking a device revokes every family that has a session on it. */
  lemma DeviceRevocationKillsFamilies(t: Tables, e: Event, ttl: Time, t': Tables, i: nat)
    requires OneOwner(t.sessions) && Transition(t, e, ttl, t') && e.call.RevokeDevice? && i < |t.sessions|
    requires t.sessions[i].userId == e.call.userId && t.sessions[i].deviceId == e.call.deviceId
    ensures Dead(t'.sessions, t.sessions[i].familyId)
  {
    var s, s' := t.sessions, t'.sessions;
    forall j | 0 <= j < |s'| && s'[j].familyId == s[i].familyId ensures s'[j].revokedAt.Some? {
      if j < i { assert SameFamily(s, j, i); }
      if i < j { assert SameFamily(s, i, j); }
    }
  }

  /** A family that no call from here on will extend: it is there and its live end is revoked. */
  predicate Frozen(s: seq<Session>, end: nat) {
    end < |s| && s[end].usedAt.None? && s[end].revokedAt.Some?
  }

  lemma FrozenStep(t: Tables, e: Event, ttl: Time, t': Tables, end: nat)
    requires SessionsOk(t.sessions) && Transition(t, e, ttl, t') && Frozen(t.sessions, end)
    ensures Frozen(t'.sessions, end) && |t.sessions| <= |t'.sessions|
    ensures forall i :: |t.sessions| <= i < |t'.sessions| ==> t'.sessions[i].familyId != t.sessions[end].familyId
  {
    var s, s' := t.sessions, t'.sessions;
    TransitionKeepsSessions(t, e, ttl, t');
    if |s'| > |s| && e.call.Refresh? {
      var i := SessionByHash(s, TokenHash(e.call.token)).value;
      if i < end { assert SameFamily(s, i, end) == (s[i].familyId == s[end].familyId); }
      if end < i { assert SameFamily(s, end, i) == (s[i].familyId == s[end].familyId); }
    }
  }

  lemma OneStepStaysFrozen(run: seq<Tables>, events: seq<Event>, ttl: Time, k: nat, end: nat)
    requires IsRun(run, events, ttl) && k < |events| && Frozen(run[k].sessions, end)
    ensures var s, s' := run[k].sessions, run[k + 1].sessions;
      && Frozen(s', end) && |s| <= |s'|
      && forall i :: |s| <= i < |s'| ==> s'[i].familyId != s[end].familyId
  {
    ReachableSessions(run, events, ttl, k);
    RunSteps(run, events, ttl, k);
    FrozenStep(run[k], events[k], ttl, run[k + 1], end);
  }

  /** Once its live end is revoked, by whatever call, a family never grows again in the run. */
  lemma {:induction false} FrozenForever(run: seq<Tables>, events: seq<Event>, ttl: Time, j: nat, k: nat, end: nat)
    requires IsRun(run, events, ttl) && j <= k < |run| && Frozen(run[j].sessions, end)
    ensures Frozen(run[k].sessions, end) && |run[j].sessions| <= |run[k].sessions|
    ensures run[k].sessions[end].familyId == run[j].sessions[end].familyId
    ensures forall i :: |run[j].sessions| <= i < |run[k].sessions| ==> run[k].sessions[i].familyId != run[j].sessions[end].familyId
    decreases k - j
  {
    if j < k {
      FrozenForever(run, events, ttl, j, k - 1, end);
      OneStepStaysFrozen(run, events, ttl, k - 1, end);
      OneStepExtends(run, events, ttl, k - 1);
      KeepsForeign(run[j].sessions, run[k - 1].sessions, run[k].sessions, run[j].sessions[end].familyId);
    }
  }

  lemma KeepsForeign(a: seq<Session>, b: seq<Session>, c: seq<Session>, family: nat)
    requires |a| <= |b| && Extends(b, c)
    requires forall i :: |a| <= i < |b| ==> b[i].familyId != family
    requires forall i :: |b| <= i < |c| ==> c[i].familyId != family
    ensures forall i :: |a| <= i < |c| ==> c[i].familyId != family
  {
    forall i | |a| <= i < |c| ensures c[i].familyId != family {
      if i < |b| { assert c[i].familyId == b[i].familyId; }
    }
  }

  /**
   A dead family is dead for good: at every later point of the run it has the same sessions,
   all revoked, and the guard accepts none of them, for any subject at any time.
   */
  lemma DeadForever(run: seq<Tables>, events: seq<Event>, ttl: Time, j: nat, k: nat, family: nat)
    requires IsRun(run, events, ttl) && j <= k < |run|
    requires HasFamily(run[j].sessions, family) && Dead(run[j].sessions, family)
    ensures |run[j].sessions| <= |run[k].sessions| && Dead(run[k].sessions, family)
    ensures forall i :: |run[j].sessions| <= i < |run[k].sessions| ==> run[k].sessions[i].familyId != family
    ensures forall subject: nat, i: nat, now: Time ::
      i < |run[k].sessions| && run[k].sessions[i].familyId == family ==> !GuardAccepts(run[k], subject, i, now)
  {
    ReachableSessions(run, events, ttl, j);
    var end := LiveEnd(run[j].sessions, family);
    LiveEndIsUnused(run[j].sessions, family);
    FrozenForever(run, events, ttl, j, k, end);
    RunExtends(run, events, ttl, j, k);
    StillRevoked(run[j].sessions, run[k].sessions, family);
  }

  lemma StillRevoked(a: seq<Session>, b: seq<Session>, family: nat)
    requires Extends(a, b) && Dead(a, family)
    requires forall i :: |a| <= i < |b| ==> b[i].familyId != family
    ensures Dead(b, family)
  {
    forall i | 0 <= i < |b| && b[i].familyId == family ensures b[i].revokedAt.Some? {
      assert b[i].familyId == a[i].familyId;
    }
  }

  /** From a detected replay on, the whole family is locked out for the rest of the run. */
  lemma ReplayLocksOut(run: seq<Tables>, events: seq<Event>, ttl: Time, j: nat, k: nat, i: nat, subject: nat, now: Time)
    requires IsRun(run, events, ttl) && j < k < |run| && OutcomeOf(run[j], events[j], ttl).ReplayDetected?
    requires i < |run[k].sessions|
    requires OutcomeOf(run[j], events[j], ttl).replayedId < |run[j].sessions|
    requires run[k].sessions[i].familyId == run[j].sessions[OutcomeOf(run[j], events[j], ttl).replayedId].familyId
    ensures !GuardAccepts(run[k], subject, i, now) && i < |run[j].sessions|
  {
    RunSteps(run, events, ttl, j);
    ReplayKillsFamily(run[j], events[j], ttl, run[j + 1]);
    DeadForever(run, events, ttl, j + 1, k, run[k].sessions[i].familyId);
  }

  /** From a device's revocation on, every family on it is locked out for the rest of the run. */
  lemma DeviceRevocationLocksOut(run: seq<Tables>, events: seq<Event>, ttl: Time, j: nat, k: nat, i: nat, i': nat,
                                 subject: nat, now: Time)
    requires IsRun(run, events, ttl) && j < k < |run| && events[j].call.RevokeDevice? && i < |run[j].sessions|
    requires run[j].sessions[i].userId == events[j].call.userId && run[j].sessions[i].deviceId == events[j].call.deviceId
    requires i' < |run[k].sessions| && run[k].sessions[i'].familyId == run[j].sessions[i].familyId
    ensures !GuardAccepts(run[k], subject, i', now)
  {
    ReachableSessions(run, events, ttl, j);
    RunSteps(run, events, ttl, j);
    DeviceRevocationKillsFamilies(run[j], events[j], ttl, run[j + 1], i);
    TransitionKeepsSessions(run[j], events[j], ttl, run[j + 1]);
    assert run[j + 1].sessions[i].familyId == run[j].sessions[i].familyId;
    DeadForever(run, events, ttl, j + 1, k, run[j].sessions[i].familyId);
  }

  /**
   The other direction: a session is revoked only by a replay in its family, its own user's
   revocation of its device, or its own logout.
   */
  lemma RevokedOnlyBy(t: Tables, call: Call, ttl: Time, now: Time, i: nat)
    requires i < |t.sessions| && t.sessions[i].revokedAt.None?
    ensures i < |Step(t, call, ttl, now).0.sessions|
    ensures Step(t, call, ttl, now).0.sessions[i].revokedAt.Some? <==> Revokes(t, call, ttl, now, i)
  {
  }

  predicate Revokes(t: Tables, call: Call, ttl: Time, now: Time, i: nat)
    requires i < |t.sessions|
  {
    match call
    case Refresh(_, _) =>
      var r := Step(t, call, ttl, now).1;
      r.ReplayDetected? && r.replayedId < |t.sessions| && t.sessions[r.replayedId].familyId == t.sessions[i].familyId
    case RevokeDevice(user, device) => t.sessions[i].userId == user && t.sessions[i].deviceId == device
    case Logout(id, user) => id == i && t.sessions[i].userId == user
    case _ => false
  }

  // ---------- What a successful call hands out ----------

  /** A session exists for the user on one of the user's own devices, and the guard lets it in. */
  predicate Issued(t: Tables, id: nat, token: nat, at: Time, ttl: Time) {
    && id < |t.sessions| && t.sessions[id].deviceId < |t.devices|
    && t.devices[t.sessions[id].deviceId].userId == t.sessions[id].userId
    && t.sessions[id].refreshTokenHash == TokenHash(token) && t.sessions[id].expiresAt == at + ttl
    && t.sessions[id].usedAt.None? && (ttl >= 0 ==> GuardAccepts(t, t.sessions[id].userId, id, at))
  }

  /** The table grows by exactly one row, by a sign-in or a refresh that succeeds and by nothing else. */
  lemma OnlySuccessIssuesSessions(t: Tables, call: Call, ttl: Time, now: Time)
    ensures var (t', r) := Step(t, call, ttl, now);
      |t'.sessions| == |t.sessions| + (if r.SignedIn? || r.Refreshed? then 1 else 0)
  {
  }

  /**
   A sign-in issues a session in a new family to the verified, now active user of that phone
   number, on the device with that installation id. No earlier session row is touched.
   */
  lemma SignInIssuesSession(t: Tables, e: Event, ttl: Time, t': Tables)
    requires Transition(t, e, ttl, t') && OutcomeOf(t, e, ttl).SignedIn?
    ensures e.call.VerifyOtp? && OutcomeOf(t, e, ttl).newSession == |t.sessions| == |t'.sessions| - 1
    ensures t'.sessions[..|t.sessions|] == t.sessions
    ensures var id := |t.sessions|; var session := t'.sessions[id];
      && Issued(t', id, e.call.token, e.at, ttl)
      && session.rotatedFrom.None? && session.familyId == e.call.family && !HasFamily(t.sessions, e.call.family)
      && t'.devices[session.deviceId].installationId == e.call.installationId
      && t'.devices[session.deviceId].lastSeenAt == e.at
      && session.userId < |t'.users| && t'.users[session.userId].phone == e.call.phone
      && !t'.users[session.userId].status.PendingVerification?
  {
  }

  /** Every session's device belongs to its user. */
  predicate OwnDevices(t: Tables) {
    forall i :: 0 <= i < |t.sessions| ==>
      t.sessions[i].deviceId < |t.devices| && t.devices[t.sessions[i].deviceId].userId == t.sessions[i].userId
  }

  /** A refresh uses up one session and issues its successor to the same user on the same device. */
  lemma RefreshIssuesSuccessor(t: Tables, e: Event, ttl: Time, t': Tables)
    requires OwnDevices(t) && Transition(t, e, ttl, t') && OutcomeOf(t, e, ttl).Refreshed?
    ensures e.call.Refresh? && OutcomeOf(t, e, ttl).nextSession == |t.sessions| == |t'.sessions| - 1
    ensures var i := OutcomeOf(t, e, ttl).rotatedId; var next := t'.sessions[|t.sessions|];
      && i < |t.sessions| && t.sessions[i].refreshTokenHash == TokenHash(e.call.token)
      && t.sessions[i].usedAt.None? && t.sessions[i].revokedAt.None? && e.at <= t.sessions[i].expiresAt
      && t'.sessions[..|t.sessions|] == t.sessions[i := t.sessions[i].(usedAt := Some(e.at))]
      && Issued(t', |t.sessions|, e.call.newToken, e.at, ttl)
      && next.rotatedFrom == Some(i) && next.familyId == t.sessions[i].familyId
      && next.userId == t.sessions[i].userId && next.deviceId == t.sessions[i].deviceId
  {
  }

  /** Devices keep their users and sessions their user and device; new sessions are on own devices. */
  predicate OwnersStay(t: Tables, t': Tables) {
    && |t.devices| <= |t'.devices| && |t.sessions| <= |t'.sessions|
    && (forall d :: 0 <= d < |t.devices| ==> t'.devices[d].userId == t.devices[d].userId)
    && (forall i :: 0 <= i < |t.sessions| ==>
          t'.sessions[i].userId == t.sessions[i].userId && t'.sessions[i].deviceId == t.sessions[i].deviceId)
    && (forall i :: |t.sessions| <= i < |t'.sessions| ==>
          t'.sessions[i].deviceId < |t'.devices| && t'.devices[t'.sessions[i].deviceId].userId == t'.sessions[i].userId)
  }

  lemma OwnersStayOwn(t: Tables, t': Tables)
    requires OwnDevices(t) && OwnersStay(t, t')
    ensures OwnDevices(t')
  {
  }

  lemma SignInKeepsOwners(t: Tables, e: Event, ttl: Time)
    requires e.call.VerifyOtp?
    ensures OwnersStay(t, Step(t, e.call, ttl, e.at).0)
  {
  }

  lemma RefreshKeepsOwners(t: Tables, e: Event, ttl: Time)
    requires OwnDevices(t) && e.call.Refresh?
    ensures OwnersStay(t, Step(t, e.call, ttl, e.at).0)
  {
  }

  lemma TransitionKeepsOwnDevices(t: Tables, e: Event, ttl: Time, t': Tables)
    requires OwnDevices(t) && Transition(t, e, ttl, t')
    ensures OwnDevices(t')
  {
    match e.call
    case VerifyOtp(_, _, _, _, _) => SignInKeepsOwners(t, e, ttl);
    case Refresh(_, _) => RefreshKeepsOwners(t, e, ttl);
    case SendOtp(_, _) => assert OwnersStay(t, t');
    case Logout(_, _) => assert OwnersStay(t, t');
    case RevokeDevice(_, _) => assert OwnersStay(t, t');
    OwnersStayOwn(t, t');
  }

  lemma {:induction false} ReachableOwnDevices(run: seq<Tables>, events: seq<Event>, ttl: Time, k: nat)
    requires IsRun(run, events, ttl) && k < |run|
    ensures OwnDevices(run[k])
  {
    if k > 0 {
      ReachableOwnDevices(run, events, ttl, k - 1);
      RunSteps(run, events, ttl, k - 1);
      TransitionKeepsOwnDevices(run[k - 1], events[k - 1], ttl, run[k]);
    }
  }
}
