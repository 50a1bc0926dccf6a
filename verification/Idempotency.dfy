/**
 The idempotency-key table and the requests that race on it. Every database operation of a
 request is a step of its own, and the steps of any number of requests interleave freely.
 */
module Idempotency {
  import opened Prelude

  /** A JSON value or its absence; the code stores and hashes an absent body as null. */
  datatype Body = Undefined | Null | Json(text: string)

  function OrNull(b: Body): Body {
    if b.Undefined? then Null else b
  }

  // SHA-256 of the serialised body, taken to be injective.
  datatype RequestHash = Sha256(body: Body)

  function HashRequest(b: Body): RequestHash {
    Sha256(OrNull(b))
  }

  datatype Status = InFlight | Completed

  datatype Row = Row(
    endpoint: string,
    requestHash: RequestHash,
    status: Status,
    responseStatus: Option<int>,
    responseBody: Body)

  type Table = map<string, Row>

  datatype Refusal = KeyRequired | KeyReused | StillInFlight | RowVanished

  datatype BeginOutcome = Proceed | Replay(status: int, body: Body) | Refuse(reason: Refusal)

  const HTTP_OK := 200

  // ---------- The database operations ----------

  function Inserted(rows: Table, key: string, endpoint: string, body: Body): Table {
    if key in rows then rows else rows[key := Row(endpoint, HashRequest(body), InFlight, None, Null)]
  }

  function LookedUp(rows: Table, key: string, endpoint: string, body: Body): BeginOutcome {
    if key !in rows then Refuse(RowVanished)
    else
      var row := rows[key];
      if row.endpoint != endpoint || row.requestHash != HashRequest(body) then Refuse(KeyReused)
      else if row.status.InFlight? then Refuse(StillInFlight)
      else Replay(if row.responseStatus.Some? then row.responseStatus.value else HTTP_OK, row.responseBody)
  }

  function CompletedWith(rows: Table, key: string, status: int, body: Body): Table {
    if key !in rows then rows
    else rows[key := rows[key].(status := Completed, responseStatus := Some(status), responseBody := OrNull(body))]
  }

  function Released(rows: Table, key: string): Table {
    if key in rows && rows[key].status.InFlight? then rows - {key} else rows
  }

  class IdempotencyService {
    var rows: Table

    constructor ()
      ensures rows == map[]
    {
      rows := map[];
    }

    /** The insert; the primary key refuses it when the key is taken. */
    method Create(key: string, endpoint: string, body: Body) returns (created: bool)
      modifies this
      ensures created <==> key !in old(rows)
      ensures rows == Inserted(old(rows), key, endpoint, body)
    {
      if key in rows {
        return false;
      }
      rows := rows[key := Row(endpoint, HashRequest(body), InFlight, None, Null)];
      return true;
    }

    /** begin when nothing comes between its insert and its lookup. */
    method Begin(key: string, endpoint: string, body: Body) returns (outcome: BeginOutcome)
      modifies this
      ensures rows == Inserted(old(rows), key, endpoint, body)
      ensures outcome == if key !in old(rows) then Proceed else LookedUp(old(rows), key, endpoint, body)
      ensures outcome != Refuse(RowVanished)
    {
      var created := Create(key, endpoint, body);
      if created {
        return Proceed;
      }
      var existing := rows[key];
      if existing.endpoint != endpoint || existing.requestHash != HashRequest(body) {
        return Refuse(KeyReused);
      }
      if existing.status.InFlight? {
        return Refuse(StillInFlight);
      }
      return Replay(if existing.responseStatus.Some? then existing.responseStatus.value else HTTP_OK, existing.responseBody);
    }

    method Complete(key: string, status: int, body: Body) returns (found: bool)
      modifies this
      ensures found <==> key in old(rows)
      ensures rows == CompletedWith(old(rows), key, status, body)
    {
      if key !in rows {
        return false;
      }
      rows := rows[key := rows[key].(status := Completed, responseStatus := Some(status), responseBody := OrNull(body))];
      return true;
    }

    method Release(key: string)
      modifies this
      ensures rows == Released(old(rows), key)
    {
      if key in rows && rows[key].status.InFlight? {
        rows := rows - {key};
      }
    }
  }

  // ---------- Requests ----------

  datatype Request = Request(key: string, endpoint: string, body: Body)

  /** Where a request stands in the interceptor. */
  datatype Phase =
    | Inserting                               // about to create its row
    | LookingUp                               // lost the insert, about to read the row
    | Running                                 // its handler is executing
    | Completing(status: int, body: Body)     // the handler returned; the row is not yet updated
    | Releasing                               // the handler threw; the row is not yet deleted
    | Succeeded(status: int, body: Body)
    | CompletionLost                          // the update found no row
    | Failed
    | Replayed(status: int, body: Body)
    | Refused(reason: Refusal)

  datatype World = World(rows: Table, requests: seq<Request>, phases: seq<Phase>)

  const EMPTY_WORLD := World(map[], [], [])

  datatype Action =
    | Arrive(request: Request)
    | Insert(who: nat)
    | LookUp(who: nat)
    | HandlerReturns(who: nat, status: int, body: Body)
    | HandlerThrows(who: nat)
    | Complete(who: nat)
    | Release(who: nat)

  function AcceptKey(key: string): Phase {
    if |key| < 8 || |key| > 128 then Refused(KeyRequired) else Inserting
  }

  predicate Enabled(w: World, a: Action) {
    |w.requests| == |w.phases| &&
    match a
    case Arrive(_) => true
    case Insert(i) => i < |w.phases| && w.phases[i].Inserting?
    case LookUp(i) => i < |w.phases| && w.phases[i].LookingUp?
    case HandlerReturns(i, _, _) => i < |w.phases| && w.phases[i].Running?
    case HandlerThrows(i) => i < |w.phases| && w.phases[i].Running?
    case Complete(i) => i < |w.phases| && w.phases[i].Completing?
    case Release(i) => i < |w.phases| && w.phases[i].Releasing?
  }

  function AfterLookup(outcome: BeginOutcome): Phase {
    match outcome
    case Proceed => Running
    case Replay(status, body) => Replayed(status, body)
    case Refuse(reason) => Refused(reason)
  }

  function Act(w: World, a: Action): World
    requires Enabled(w, a)
  {
    match a
    case Arrive(request) => w.(requests := w.requests + [request], phases := w.phases + [AcceptKey(request.key)])
    case Insert(i) =>
      var r := w.requests[i];
      w.(rows := Inserted(w.rows, r.key, r.endpoint, r.body),
         phases := w.phases[i := if r.key in w.rows then LookingUp else Running])
    case LookUp(i) =>
      var r := w.requests[i];
      w.(phases := w.phases[i := AfterLookup(LookedUp(w.rows, r.key, r.endpoint, r.body))])
    case HandlerReturns(i, status, body) => w.(phases := w.phases[i := Completing(status, body)])
    case HandlerThrows(i) => w.(phases := w.phases[i := Releasing])
    case Complete(i) =>
      var r := w.requests[i];
      w.(rows := CompletedWith(w.rows, r.key, w.phases[i].status, w.phases[i].body),
         phases := w.phases[i := if r.key in w.rows then Succeeded(w.phases[i].status, w.phases[i].body) else CompletionLost])
    case Release(i) =>
      var r := w.requests[i];
      w.(rows := Released(w.rows, r.key), phases := w.phases[i := Failed])
  }

  /** Any interleaving of the steps of any number of requests, from an empty table. */
  ghost predicate IsRun(run: seq<World>, actions: seq<Action>) {
    && |run| == |actions| + 1 && run[0] == EMPTY_WORLD
    && forall k: nat :: k < |actions| ==> MovesAt(run, actions, k)
  }

  ghost predicate MovesAt(run: seq<World>, actions: seq<Action>, k: nat)
    requires k < |actions| && |run| == |actions| + 1
  {
    Moves(run[k], actions[k], run[k + 1])
  }

  ghost predicate Moves(w: World, a: Action, w': World) {
    Enabled(w, a) && w' == Act(w, a)
  }

  lemma RunSteps(run: seq<World>, actions: seq<Action>, k: nat)
    requires IsRun(run, actions) && k < |actions|
    ensures Moves(run[k], actions[k], run[k + 1])
  {
    assert MovesAt(run, actions, k);
  }

  // ---------- The invariant ----------

  /** The request won its insert and its handler has not failed and been released. */
  predicate Holds(p: Phase) {
    p.Running? || p.Completing? || p.Releasing? || p.Succeeded?
  }

  /** The row a request in this phase must find under its key. */
  predicate OwnRow(row: Row, r: Request, p: Phase) {
    && row.endpoint == r.endpoint && row.requestHash == HashRequest(r.body)
    && (if p.Succeeded? then row.status.Completed? && row.responseStatus == Some(p.status) && row.responseBody == OrNull(p.body)
        else row.status.InFlight?)
  }

  predicate HoldersOwnRows(w: World)
    requires |w.requests| == |w.phases|
  {
    forall i :: 0 <= i < |w.phases| && Holds(w.phases[i]) ==>
      w.requests[i].key in w.rows && OwnRow(w.rows[w.requests[i].key], w.requests[i], w.phases[i])
  }

  predicate OneHolderPerKey(w: World)
    requires |w.requests| == |w.phases|
  {
    forall i, j :: 0 <= i < j < |w.phases| && Holds(w.phases[i]) && Holds(w.phases[j]) ==> w.requests[i].key != w.requests[j].key
  }

  predicate HeldBy(w: World, key: string, i: nat)
    requires |w.requests| == |w.phases|
  {
    i < |w.phases| && Holds(w.phases[i]) && w.requests[i].key == key
  }

  ghost predicate RowsAreHeld(w: World)
    requires |w.requests| == |w.phases|
  {
    forall key :: key in w.rows ==> exists i :: HeldBy(w, key, i)
  }

  /** Request j is the execution whose answer request i was given. */
  predicate AnsweredBy(w: World, i: nat, j: nat)
    requires |w.requests| == |w.phases|
  {
    && i < |w.phases| && j < |w.phases| && w.phases[i].Replayed? && w.phases[j].Succeeded?
    && w.requests[i].key == w.requests[j].key && w.requests[i].endpoint == w.requests[j].endpoint
    && HashRequest(w.requests[i].body) == HashRequest(w.requests[j].body)
    && w.phases[i].status == w.phases[j].status && w.phases[i].body == OrNull(w.phases[j].body)
  }

  ghost predicate ReplaysAreGenuine(w: World)
    requires |w.requests| == |w.phases|
  {
    forall i :: 0 <= i < |w.phases| && w.phases[i].Replayed? ==> exists j :: AnsweredBy(w, i, j)
  }

  predicate NothingLost(w: World) {
    forall i :: 0 <= i < |w.phases| ==> !w.phases[i].CompletionLost?
  }

  ghost predicate Ok(w: World) {
    && |w.requests| == |w.phases|
    && HoldersOwnRows(w) && OneHolderPerKey(w) && RowsAreHeld(w) && ReplaysAreGenuine(w) && NothingLost(w)
  }

  // ---------- Every step keeps it ----------

  /** Requests do not change, and succeeded or replayed ones keep their phase. */
  ghost predicate Continues(w: World, w': World)
    requires |w.requests| == |w.phases| && |w'.requests| == |w'.phases|
  {
    && |w.requests| <= |w'.requests|
    && (forall i {:trigger w'.requests[i]} :: 0 <= i < |w.requests| ==> w'.requests[i] == w.requests[i])
    && (forall i {:trigger w'.phases[i]} :: 0 <= i < |w.phases| && (w.phases[i].Succeeded? || w.phases[i].Replayed?)
          ==> w'.phases[i] == w.phases[i])
  }

  lemma ArriveKeepsOk(w: World, r: Request)
    requires Ok(w)
    ensures Ok(Act(w, Arrive(r))) && Continues(w, Act(w, Arrive(r)))
  {
    ArriveIsQuiet(w, Act(w, Arrive(r)));
    ArriveKeepsRowsHeld(w, Act(w, Arrive(r)));
    ArriveKeepsReplays(w, Act(w, Arrive(r)));
  }

  lemma ArriveIsQuiet(w: World, w': World)
    requires |w.requests| == |w.phases| && |w'.requests| == |w'.phases| && w'.rows == w.rows
    requires w.requests <= w'.requests && w.phases <= w'.phases
    requires forall i :: |w.phases| <= i < |w'.phases| ==> !Holds(w'.phases[i]) && !w'.phases[i].CompletionLost?
    requires HoldersOwnRows(w) && OneHolderPerKey(w) && NothingLost(w)
    ensures HoldersOwnRows(w') && OneHolderPerKey(w') && NothingLost(w') && Continues(w, w')
  {
  }

  lemma ArriveKeepsRowsHeld(w: World, w': World)
    requires |w.requests| == |w.phases| && |w'.requests| == |w'.phases| && RowsAreHeld(w) && w'.rows == w.rows
    requires w.requests <= w'.requests && w.phases <= w'.phases
    ensures RowsAreHeld(w')
  {
    forall key | key in w'.rows ensures exists i :: HeldBy(w', key, i) {
      var i :| HeldBy(w, key, i);
      assert HeldBy(w', key, i);
    }
  }

  lemma ArriveKeepsReplays(w: World, w': World)
    requires |w.requests| == |w.phases| && |w'.requests| == |w'.phases| && ReplaysAreGenuine(w)
    requires w.requests <= w'.requests && w.phases <= w'.phases
    requires forall i :: |w.phases| <= i < |w'.phases| ==> !w'.phases[i].Replayed?
    ensures ReplaysAreGenuine(w')
  {
    forall i | 0 <= i < |w'.phases| && w'.phases[i].Replayed? ensures exists j :: AnsweredBy(w', i, j) {
      var j :| AnsweredBy(w, i, j);
      assert AnsweredBy(w', i, j);
    }
  }

  /** Only the phase of request i and the row under its key may change. */
  predicate Touches(w: World, w': World, i: nat) {
    && |w.requests| == |w.phases| == |w'.phases| && w'.requests == w.requests && i < |w.phases|
    && (forall j :: 0 <= j < |w.phases| && j != i ==> w'.phases[j] == w.phases[j])
    && (forall key :: key in w.rows && key != w.requests[i].key ==> key in w'.rows && w'.rows[key] == w.rows[key])
    && (forall key :: key in w'.rows && key != w.requests[i].key ==> key in w.rows)
  }

  /** The row under the key is request i's to write: it holds the key, or nobody does. */
  predicate MayWrite(w: World, i: nat)
    requires i < |w.requests| == |w.phases|
  {
    Holds(w.phases[i]) || w.requests[i].key !in w.rows
  }

  /** Request i writes only what is its own, and holds the key afterwards exactly while its row is there. */
  predicate Rightful(w: World, w': World, i: nat)
    requires Touches(w, w', i)
  {
    var key := w.requests[i].key;
    && !w.phases[i].Succeeded? && !w.phases[i].Replayed? && !w'.phases[i].CompletionLost?
    && (MayWrite(w, i) || w'.rows == w.rows)
    && (Holds(w'.phases[i]) <==> MayWrite(w, i) && key in w'.rows)
    && (Holds(w'.phases[i]) ==> OwnRow(w'.rows[key], w.requests[i], w'.phases[i]))
  }

  lemma TouchContinues(w: World, w': World, i: nat)
    requires Touches(w, w', i) && Rightful(w, w', i)
    ensures Continues(w, w')
  {
  }

  lemma TouchKeepsHolders(w: World, w': World, i: nat)
    requires Touches(w, w', i) && Rightful(w, w', i) && HoldersOwnRows(w) && OneHolderPerKey(w)
    ensures HoldersOwnRows(w') && OneHolderPerKey(w')
  {
    forall j | 0 <= j < |w.phases| && j != i && Holds(w.phases[j]) && MayWrite(w, i)
      ensures w.requests[j].key != w.requests[i].key
    {
    }
  }

  lemma TouchKeepsRowsHeld(w: World, w': World, i: nat)
    requires Touches(w, w', i) && Rightful(w, w', i) && RowsAreHeld(w)
    ensures RowsAreHeld(w')
  {
    forall key | key in w'.rows ensures exists j :: HeldBy(w', key, j) {
      if key == w.requests[i].key && MayWrite(w, i) {
        assert HeldBy(w', key, i);
      } else {
        var j :| HeldBy(w, key, j);
        assert HeldBy(w', key, j);
      }
    }
  }

  lemma TouchKeepsReplays(w: World, w': World, i: nat, m: nat)
    requires Touches(w, w', i) && Rightful(w, w', i) && ReplaysAreGenuine(w)
    requires w'.phases[i].Replayed? ==> AnsweredBy(w', i, m)
    ensures ReplaysAreGenuine(w')
  {
    forall j | 0 <= j < |w'.phases| && w'.phases[j].Replayed? ensures exists n :: AnsweredBy(w', j, n) {
      if j == i {
        assert AnsweredBy(w', i, m);
      } else {
        var n :| AnsweredBy(w, j, n);
        assert AnsweredBy(w', j, n);
      }
    }
  }

  lemma TouchKeepsOk(w: World, w': World, i: nat, m: nat)
    requires Ok(w) && Touches(w, w', i) && Rightful(w, w', i)
    requires w'.phases[i].Replayed? ==> AnsweredBy(w', i, m)
    ensures Ok(w') && Continues(w, w')
  {
    TouchContinues(w, w', i);
    TouchKeepsHolders(w, w', i);
    TouchKeepsRowsHeld(w, w', i);
    TouchKeepsReplays(w, w', i, m);
  }

  /** A replaying lookup finds the row of the request that succeeded under the key. */
  lemma LookupIsRightful(w: World, i: nat) returns (m: nat)
    requires Ok(w) && Enabled(w, LookUp(i))
    ensures Touches(w, Act(w, LookUp(i)), i) && Rightful(w, Act(w, LookUp(i)), i)
    ensures Act(w, LookUp(i)).phases[i].Replayed? ==> AnsweredBy(Act(w, LookUp(i)), i, m)
  {
    m := 0;
    if w.requests[i].key in w.rows {
      m :| HeldBy(w, w.requests[i].key, m);
      assert OwnRow(w.rows[w.requests[m].key], w.requests[m], w.phases[m]);
    }
  }

  /** Every other step of a request is rightful: its own row is the one it created. */
  lemma StepIsRightful(w: World, a: Action)
    requires Ok(w) && Enabled(w, a) && !a.Arrive? && !a.LookUp?
    ensures Touches(w, Act(w, a), a.who) && Rightful(w, Act(w, a), a.who) && !Act(w, a).phases[a.who].Replayed?
    ensures a.Release? ==> w.requests[a.who].key !in Act(w, a).rows
  {
    assert Holds(w.phases[a.who]) ==> OwnRow(w.rows[w.requests[a.who].key], w.requests[a.who], w.phases[a.who]);
  }

  lemma StepKeepsOk(w: World, a: Action)
    requires Ok(w) && Enabled(w, a)
    ensures Ok(Act(w, a)) && Continues(w, Act(w, a))
  {
    if a.Arrive? {
      ArriveKeepsOk(w, a.request);
    } else if a.LookUp? {
      var m := LookupIsRightful(w, a.who);
      TouchKeepsOk(w, Act(w, a), a.who, m);
    } else {
      StepIsRightful(w, a);
      TouchKeepsOk(w, Act(w, a), a.who, 0);
    }
  }

  lemma {:induction false} ReachableOk(run: seq<World>, actions: seq<Action>, k: nat)
    requires IsRun(run, actions) && k < |run|
    ensures Ok(run[k])
  {
    if k > 0 {
      ReachableOk(run, actions, k - 1);
      RunSteps(run, actions, k - 1);
      StepKeepsOk(run[k - 1], actions[k - 1]);
    }
  }

  // ---------- What the protocol promises ----------

  /**
   The primary key decides the winner: under every interleaving an in-flight row has exactly
   one unfinished owner, and a key without a row has none.
   */
  lemma ExactlyOneOwner(run: seq<World>, actions: seq<Action>, k: nat, key: string)
    requires IsRun(run, actions) && k < |run|
    ensures var w := run[k];
      && |w.requests| == |w.phases|
      && (key in w.rows && w.rows[key].status.InFlight? ==> exists i: nat :: HeldBy(w, key, i) && !w.phases[i].Succeeded?)
      && (forall i: nat, j: nat :: HeldBy(w, key, i) && HeldBy(w, key, j) ==> i == j)
      && (forall i: nat :: HeldBy(w, key, i) ==> key in w.rows && (w.rows[key].status.InFlight? <==> !w.phases[i].Succeeded?))
  {
    ReachableOk(run, actions, k);
    var w := run[k];
    if key in w.rows {
      var i :| HeldBy(w, key, i);
    }
  }

  /** The handler of this request has returned a value. */
  predicate HandlerSucceeded(p: Phase) {
    p.Completing? || p.Succeeded?
  }

  lemma SuccessPersists(w: World, a: Action, w': World, i: nat)
    requires Ok(w) && Moves(w, a, w') && i < |w.phases| && HandlerSucceeded(w.phases[i])
    ensures i < |w'.phases| && HandlerSucceeded(w'.phases[i])
    ensures w'.phases[i].status == w.phases[i].status && w'.phases[i].body == w.phases[i].body
  {
    assert OwnRow(w.rows[w.requests[i].key], w.requests[i], w.phases[i]);
  }

  /** Once a handler has returned a value its request stays in that state, so one point of a run tells all. */
  lemma {:induction false} SuccessIsFinal(run: seq<World>, actions: seq<Action>, j: nat, k: nat, i: nat)
    requires IsRun(run, actions) && j <= k < |run| && i < |run[j].phases| && HandlerSucceeded(run[j].phases[i])
    ensures i < |run[k].phases| && HandlerSucceeded(run[k].phases[i])
    ensures run[k].phases[i].status == run[j].phases[i].status && run[k].phases[i].body == run[j].phases[i].body
    decreases k - j
  {
    if j < k {
      SuccessIsFinal(run, actions, j, k - 1, i);
      RunSteps(run, actions, k - 1);
      ReachableOk(run, actions, k - 1);
      SuccessPersists(run[k - 1], actions[k - 1], run[k], i);
    }
  }

  /** At most one execution per key ever ends in success, at whatever points of the run they do. */
  lemma AtMostOneSuccess(run: seq<World>, actions: seq<Action>, j: nat, k: nat, i: nat, i': nat)
    requires IsRun(run, actions) && j <= k < |run|
    requires i < |run[j].phases| && HandlerSucceeded(run[j].phases[i])
    requires i' < |run[k].phases| && HandlerSucceeded(run[k].phases[i'])
    requires i < |run[k].requests| && i' < |run[k].requests| && run[k].requests[i].key == run[k].requests[i'].key
    ensures i == i'
  {
    SuccessIsFinal(run, actions, j, k, i);
    ReachableOk(run, actions, k);
  }

  /** A completed row never changes or disappears. */
  lemma {:induction false} CompletedIsFinal(run: seq<World>, actions: seq<Action>, j: nat, k: nat, key: string)
    requires IsRun(run, actions) && j <= k < |run|
    requires key in run[j].rows && run[j].rows[key].status.Completed?
    ensures key in run[k].rows && run[k].rows[key] == run[j].rows[key]
    decreases k - j
  {
    if j < k {
      CompletedIsFinal(run, actions, j, k - 1, key);
      ReachableOk(run, actions, k - 1);
      RunSteps(run, actions, k - 1);
      OnlyHoldersWrite(run[k - 1], actions[k - 1], key);
    }
  }

  lemma OnlyHoldersWrite(w: World, a: Action, key: string)
    requires Ok(w) && Enabled(w, a) && key in w.rows && w.rows[key].status.Completed?
    ensures key in Act(w, a).rows && Act(w, a).rows[key] == w.rows[key]
  {
    if a.Complete? || a.Release? {
      assert w.requests[a.who].key == key ==> OwnRow(w.rows[key], w.requests[a.who], w.phases[a.who]);
    }
  }

  /**
   Every replay returns the status and body of the one successful execution under its key, to
   a request with the same endpoint and the same body hash.
   */
  lemma ReplaysReturnTheExecution(run: seq<World>, actions: seq<Action>, k: nat, i: nat)
    requires IsRun(run, actions) && k < |run| && i < |run[k].phases| && run[k].phases[i].Replayed?
    ensures |run[k].requests| == |run[k].phases|
    ensures exists j :: AnsweredBy(run[k], i, j)
    ensures forall j :: HeldBy(run[k], run[k].requests[i].key, j) ==> AnsweredBy(run[k], i, j)
  {
    ReachableOk(run, actions, k);
    var j :| AnsweredBy(run[k], i, j);
    forall m | HeldBy(run[k], run[k].requests[i].key, m) ensures m == j {
    }
  }

  /** No completion is ever lost, and a replay never needs the default status. */
  lemma CompletionsLand(run: seq<World>, actions: seq<Action>, k: nat)
    requires IsRun(run, actions) && k < |run|
    ensures forall i :: 0 <= i < |run[k].phases| ==> !run[k].phases[i].CompletionLost?
    ensures forall key :: key in run[k].rows && run[k].rows[key].status.Completed? ==> run[k].rows[key].responseStatus.Some?
  {
    ReachableOk(run, actions, k);
    forall key | key in run[k].rows && run[k].rows[key].status.Completed? ensures run[k].rows[key].responseStatus.Some? {
      var i :| HeldBy(run[k], key, i);
    }
  }

  /** A failed execution frees its key: the next insert under it wins. */
  lemma FailureFreesKey(run: seq<World>, actions: seq<Action>, k: nat, i: nat)
    requires IsRun(run, actions) && k < |actions| && actions[k] == Release(i)
    ensures i < |run[k].requests| && run[k].requests[i].key !in run[k + 1].rows
  {
    ReachableOk(run, actions, k);
    RunSteps(run, actions, k);
    StepIsRightful(run[k], actions[k]);
  }

  // ---------- The one refusal that is neither replay nor conflict ----------

  /** Step m of the run is the insert of request i, and it finds the key taken. */
  ghost predicate LosesAt(run: seq<World>, actions: seq<Action>, m: nat, i: nat) {
    && m < |actions| && m < |run| && actions[m] == Insert(i)
    && i < |run[m].requests| && run[m].requests[i].key in run[m].rows
  }

  ghost predicate WinsAt(run: seq<World>, actions: seq<Action>, q: nat, key: string) {
    && q < |actions| && q < |run| && actions[q].Insert? && actions[q].who < |run[q].requests|
    && run[q].requests[actions[q].who].key == key && key !in run[q].rows
  }

  ghost predicate ReleasesAt(run: seq<World>, actions: seq<Action>, r: nat, key: string) {
    && r < |actions| && r < |run| && actions[r].Release? && actions[r].who < |run[r].requests|
    && run[r].requests[actions[r].who].key == key
  }

  /** The key is released at step r and no insert wins it before step k. */
  ghost predicate FreeSince(run: seq<World>, actions: seq<Action>, r: nat, k: nat, key: string) {
    r < k && ReleasesAt(run, actions, r, key) && forall q: nat :: r < q < k ==> !WinsAt(run, actions, q, key)
  }

  lemma {:induction false} LookingUpLostAnInsert(run: seq<World>, actions: seq<Action>, k: nat, i: nat) returns (m: nat)
    requires IsRun(run, actions) && k < |run| && i < |run[k].phases| && run[k].phases[i].LookingUp?
    ensures m < k && LosesAt(run, actions, m, i)
    ensures i < |run[k].requests| && run[m].requests[i] == run[k].requests[i]
  {
    ReachableOk(run, actions, k - 1);
    RunSteps(run, actions, k - 1);
    StepKeepsOk(run[k - 1], actions[k - 1]);
    if i < |run[k - 1].phases| && run[k - 1].phases[i].LookingUp? {
      m := LookingUpLostAnInsert(run, actions, k - 1, i);
    } else {
      m := k - 1;
      BecomesLookingUp(run[m], actions[m], i);
    }
  }

  lemma BecomesLookingUp(w: World, a: Action, i: nat)
    requires Enabled(w, a) && i < |Act(w, a).phases| && Act(w, a).phases[i].LookingUp?
    requires i < |w.phases| ==> !w.phases[i].LookingUp?
    ensures a == Insert(i) && i < |w.requests| && w.requests[i].key in w.rows
  {
  }

  lemma OnlyReleaseRemoves(w: World, a: Action, key: string)
    requires Enabled(w, a) && key in w.rows && key !in Act(w, a).rows
    ensures a.Release? && a.who < |w.requests| && w.requests[a.who].key == key
  {
  }

  lemma OnlyWinnerAdds(w: World, a: Action, key: string)
    requires Enabled(w, a) && key !in w.rows && key in Act(w, a).rows
    ensures a.Insert? && a.who < |w.requests| && w.requests[a.who].key == key
  {
  }

  lemma {:induction false} MissingRowWasReleased(run: seq<World>, actions: seq<Action>, m: nat, k: nat, key: string) returns (r: nat)
    requires IsRun(run, actions) && m <= k < |run| && key in run[m].rows && key !in run[k].rows
    ensures m <= r && FreeSince(run, actions, r, k, key)
    decreases k - m
  {
    if key in run[k - 1].rows {
      r := k - 1;
      RunSteps(run, actions, r);
      OnlyReleaseRemoves(run[r], actions[r], key);
    } else {
      r := MissingRowWasReleased(run, actions, m, k - 1, key);
      RunSteps(run, actions, k - 1);
      assert !WinsAt(run, actions, k - 1, key) by { WinnerGetsRow(run, actions, k - 1, key); }
    }
  }

  lemma WinnerGetsRow(run: seq<World>, actions: seq<Action>, q: nat, key: string)
    requires IsRun(run, actions) && q < |actions|
    ensures WinsAt(run, actions, q, key) ==> key in run[q + 1].rows
  {
    RunSteps(run, actions, q);
  }

  lemma {:induction false} FreeKeyHasNoRow(run: seq<World>, actions: seq<Action>, r: nat, k: nat, key: string)
    requires IsRun(run, actions) && k < |run| && FreeSince(run, actions, r, k, key)
    ensures key !in run[k].rows
    decreases k
  {
    if r == k - 1 {
      FailureFreesKey(run, actions, r, actions[r].who);
    } else {
      FreeKeyHasNoRow(run, actions, r, k - 1, key);
      RunSteps(run, actions, k - 1);
      if key in run[k].rows {
        OnlyWinnerAdds(run[k - 1], actions[k - 1], key);
        assert WinsAt(run, actions, k - 1, key);
      }
    }
  }

  /**
   A lookup throws for a missing row exactly when an execution under the key, after the insert
   that it made this request lose, has failed and released it, and no insert has won it since.
   */
  lemma LookupMissesExactlyWhen(run: seq<World>, actions: seq<Action>, k: nat, i: nat)
    requires IsRun(run, actions) && k < |actions| && actions[k] == LookUp(i)
    ensures i < |run[k].requests| && i < |run[k + 1].phases|
    ensures run[k + 1].phases[i] == Refused(RowVanished)
       <==> exists m: nat, r: nat :: LosesAt(run, actions, m, i) && m < r && FreeSince(run, actions, r, k, run[k].requests[i].key)
  {
    RunSteps(run, actions, k);
    var key := run[k].requests[i].key;
    var m := LookingUpLostAnInsert(run, actions, k, i);
    if key !in run[k].rows {
      var r := MissingRowWasReleased(run, actions, m, k, key);
      assert LosesAt(run, actions, m, i) && m < r && FreeSince(run, actions, r, k, key);
    } else {
      forall r: nat ensures !FreeSince(run, actions, r, k, key) {
        if FreeSince(run, actions, r, k, key) { FreeKeyHasNoRow(run, actions, r, k, key); }
      }
    }
  }

  // ---------- What each request is told ----------

  /** JSON bodies that serialise alike: an absent body reads as null. */
  predicate SameJson(a: Body, b: Body) {
    if a.Json? || b.Json? then a == b else true
  }

  lemma HashDecidesJson(a: Body, b: Body)
    ensures HashRequest(a) == HashRequest(b) <==> SameJson(a, b)
  {
  }

  /** What request i must be told when request j holds its key. */
  function Answer(asked: Request, holder: Request, p: Phase): Phase {
    if asked.endpoint != holder.endpoint || !SameJson(asked.body, holder.body) then Refused(KeyReused)
    else if p.Succeeded? then Replayed(p.status, if p.body.Undefined? then Null else p.body)
    else Refused(StillInFlight)
  }

  /**
   In every run a request that lost its insert is answered by the holder of its key: refused if
   its endpoint or body differ, replayed once the holder has succeeded, else told to wait.
   */
  lemma LookupAnswers(run: seq<World>, actions: seq<Action>, k: nat, i: nat, j: nat)
    requires IsRun(run, actions) && k < |actions| && actions[k] == LookUp(i)
    ensures Ok(run[k]) && i < |run[k].requests| && i < |run[k + 1].phases|
    ensures HeldBy(run[k], run[k].requests[i].key, j) ==>
      run[k + 1].phases[i] == Answer(run[k].requests[i], run[k].requests[j], run[k].phases[j])
  {
    ReachableOk(run, actions, k);
    RunSteps(run, actions, k);
    if HeldBy(run[k], run[k].requests[i].key, j) {
      assert OwnRow(run[k].rows[run[k].requests[j].key], run[k].requests[j], run[k].phases[j]);
      HashDecidesJson(run[k].requests[i].body, run[k].requests[j].body);
    }
  }

  /** In every run an insert wins exactly when nobody holds the key, and the winner alone runs its handler. */
  lemma InsertWinsExactlyWhen(run: seq<World>, actions: seq<Action>, k: nat, i: nat)
    requires IsRun(run, actions) && k < |actions| && actions[k] == Insert(i)
    ensures Ok(run[k]) && i < |run[k].requests| && i < |run[k + 1].phases|
    ensures run[k + 1].phases[i] == if exists j :: HeldBy(run[k], run[k].requests[i].key, j) then LookingUp else Running
  {
    ReachableOk(run, actions, k);
    RunSteps(run, actions, k);
    if run[k].requests[i].key in run[k].rows {
      var j :| HeldBy(run[k], run[k].requests[i].key, j);
    }
  }

  predicate BadKey(key: string) {
    |key| < 8 || |key| > 128
  }

  lemma KeyRefusalOfStep(w: World, a: Action, i: nat)
    requires Enabled(w, a) && i < |Act(w, a).phases|
    ensures i < |w.phases| && w.phases[i] == Refused(KeyRequired) ==> Act(w, a).phases[i] == Refused(KeyRequired)
    ensures Act(w, a).phases[i] == Refused(KeyRequired) && i < |w.phases| ==> w.phases[i] == Refused(KeyRequired)
    ensures i >= |w.phases| ==> (Act(w, a).phases[i] == Refused(KeyRequired) <==> BadKey(Act(w, a).requests[i].key))
  {
  }

  /** In every run a request is refused for its key exactly when that is not 8 to 128 characters long. */
  lemma {:induction false} KeyRequiredExactlyWhen(run: seq<World>, actions: seq<Action>, k: nat, i: nat)
    requires IsRun(run, actions) && k < |run| && i < |run[k].phases|
    ensures i < |run[k].requests|
    ensures run[k].phases[i] == Refused(KeyRequired) <==> BadKey(run[k].requests[i].key)
  {
    ReachableOk(run, actions, k);
    RunSteps(run, actions, k - 1);
    ReachableOk(run, actions, k - 1);
    StepKeepsOk(run[k - 1], actions[k - 1]);
    KeyRefusalOfStep(run[k - 1], actions[k - 1], i);
    if i < |run[k - 1].phases| {
      KeyRequiredExactlyWhen(run, actions, k - 1, i);
    }
  }

  /** The four table operations touch no key but their own; completed rows survive a release, taken keys an insert. */
  lemma OperationsTouchOneKey(rows: Table, key: string, endpoint: string, status: int, body: Body, other: string)
    requires other != key
    ensures (other in rows <==> other in Inserted(rows, key, endpoint, body)) && (other in rows <==> other in Released(rows, key))
    ensures other in rows <==> other in CompletedWith(rows, key, status, body)
    ensures other in rows ==>
      rows[other] == Inserted(rows, key, endpoint, body)[other] == CompletedWith(rows, key, status, body)[other] == Released(rows, key)[other]
    ensures key in rows ==> Inserted(rows, key, endpoint, body) == rows
    ensures key in rows && rows[key].status.Completed? ==> Released(rows, key) == rows
    ensures key in rows && rows[key].status.InFlight? ==> key !in Released(rows, key)
    ensures key !in rows ==> CompletedWith(rows, key, status, body) == rows
  {
  }
}
