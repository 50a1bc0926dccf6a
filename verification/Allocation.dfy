/**
 The repayment waterfall: a receipt is applied to the dues in the order the product
 prescribes. The bucket type and the number of buckets are arbitrary.
 */
module Allocation {
  import opened Prelude
  import opened Money

  datatype DueBucket = Penalty | Fees | Interest | Principal

  const DEFAULT_ALLOCATION_ORDER: seq<DueBucket> := [Penalty, Fees, Interest, Principal]

  datatype AllocationResult<B> = AllocationResult(shares: map<B, Paise>, unallocated: Paise)

  datatype AllocationError<B> =
    | ReceivedNegative
    | BucketRepeated
    | BucketMissing(missing: B)
    | DueNegative(bucket: B)
    | InvariantViolated

  predicate Distinct<B(==)>(s: seq<B>) {
    forall i, j :: 0 <= i < j < |s| ==> s[i] != s[j]
  }

  /** What the types of the original give for free: dues for every bucket, an order of buckets. */
  predicate WellTyped<B(==)>(dues: map<B, Paise>, order: seq<B>, buckets: seq<B>) {
    && Distinct(buckets)
    && (forall b :: b in buckets ==> b in dues)
    && (forall b :: b in dues ==> b in buckets)
    && (forall b :: b in order ==> b in buckets)
  }

  // ---------- The closed form, over dues listed in order ----------

  /** Sum of the first k dues. */
  function Before(due: seq<Paise>, k: nat): Paise
    requires k <= |due|
  {
    if k == 0 then 0 else Before(due, k - 1) + due[k - 1]
  }

  /** What the first k dues leave of the receipt. */
  function Left(received: Paise, due: seq<Paise>, k: nat): Paise
    requires k <= |due|
  {
    Max(0, received - Before(due, k))
  }

  /** Each bucket gets what is left after every earlier due, up to its own due. */
  function Paid(received: Paise, due: seq<Paise>, k: nat): Paise
    requires k < |due|
  {
    Min(due[k], Left(received, due, k))
  }

  function InOrder<B(==)>(dues: map<B, Paise>, order: seq<B>): (due: seq<Paise>)
    requires forall b :: b in order ==> b in dues
    ensures |due| == |order| && forall k {:trigger due[k]} :: 0 <= k < |order| ==> due[k] == dues[order[k]]
  {
    seq(|order|, k requires 0 <= k < |order| => dues[order[k]])
  }

  function IndexOf<B(==)>(order: seq<B>, b: B): (k: nat)
    requires b in order
    ensures k < |order| && order[k] == b
  {
    if order[0] == b then 0 else 1 + IndexOf(order[1..], b)
  }

  function Waterfall<B(==)>(received: Paise, dues: map<B, Paise>, order: seq<B>): AllocationResult<B>
    requires forall b :: b in order ==> b in dues
  {
    var due := InOrder(dues, order);
    AllocationResult(
      map b | b in order :: Paid(received, due, IndexOf(order, b)),
      Left(received, due, |due|))
  }

  /** The first rejection of the original's checks, made bucket by bucket. */
  function Rejection<B(==)>(dues: map<B, Paise>, order: seq<B>, buckets: seq<B>): Option<AllocationError<B>>
    requires forall b :: b in buckets ==> b in dues
  {
    if buckets == [] then None
    else if buckets[0] !in order then Some(BucketMissing(buckets[0]))
    else if dues[buckets[0]] < 0 then Some(DueNegative(buckets[0]))
    else Rejection(dues, order, buckets[1..])
  }

  function Allocated<B(==)>(received: Paise, dues: map<B, Paise>, order: seq<B>, buckets: seq<B>)
    : Result<AllocationResult<B>, AllocationError<B>>
    requires WellTyped(dues, order, buckets)
  {
    if received < 0 then Failure(ReceivedNegative)
    else if !Distinct(order) then Failure(BucketRepeated)
    else
      match Rejection(dues, order, buckets)
      case Some(e) => Failure(e)
      case None => Success(Waterfall(received, dues, order))
  }

  function SumOver<B(==)>(amounts: map<B, Paise>, s: seq<B>): Paise
    requires forall b :: b in s ==> b in amounts
  {
    if s == [] then 0 else SumOver(amounts, s[..|s| - 1]) + amounts[s[|s| - 1]]
  }

  // ---------- The loop of the original ----------

  method CheckBuckets<B(==)>(dues: map<B, Paise>, order: seq<B>, buckets: seq<B>) returns (r: Option<AllocationError<B>>)
    requires forall b :: b in buckets ==> b in dues
    ensures r == Rejection(dues, order, buckets)
  {
    for i := 0 to |buckets|
      invariant Rejection(dues, order, buckets[i..]) == Rejection(dues, order, buckets)
    {
      assert buckets[i..][1..] == buckets[i + 1..];
      if buckets[i] !in order {
        return Some(BucketMissing(buckets[i]));
      }
      if dues[buckets[i]] < 0 {
        return Some(DueNegative(buckets[i]));
      }
    }
    return None;
  }

  /** The first n buckets of the order have their payments, the others nothing. */
  predicate FilledUpTo<B(==)>(shares: map<B, Paise>, received: Paise, due: seq<Paise>, order: seq<B>, n: nat)
    requires |due| == |order|
  {
    && (forall b :: b in order ==> b in shares)
    && (forall j {:trigger shares[order[j]]} :: 0 <= j < |order| ==>
          shares[order[j]] == if j < n then Paid(received, due, j) else 0)
  }

  lemma FillNext<B>(shares: map<B, Paise>, received: Paise, due: seq<Paise>, order: seq<B>, n: nat)
    requires |due| == |order| && Distinct(order) && n < |order| && FilledUpTo(shares, received, due, order, n)
    ensures FilledUpTo(shares[order[n] := Paid(received, due, n)], received, due, order, n + 1)
  {
  }

  /** What has been paid and what remains after the first n buckets of the order. */
  predicate Progress<B(==)>(shares: map<B, Paise>, remaining: Paise, received: Paise, dues: map<B, Paise>, order: seq<B>, n: nat)
    requires forall b :: b in order ==> b in dues
  {
    && n <= |order| && shares.Keys == (set b | b in order)
    && FilledUpTo(shares, received, InOrder(dues, order), order, n) && remaining == Left(received, InOrder(dues, order), n)
  }

  lemma NoProgressYet<B>(shares: map<B, Paise>, received: Paise, dues: map<B, Paise>, order: seq<B>, buckets: seq<B>)
    requires received >= 0 && ValidOrder(dues, order, buckets) && shares == map b | b in buckets :: 0
    ensures Progress(shares, received, received, dues, order, 0)
  {
  }

  lemma NextBucket<B>(shares: map<B, Paise>, remaining: Paise, received: Paise, dues: map<B, Paise>, order: seq<B>, n: nat)
    requires (forall b :: b in order ==> b in dues && dues[b] >= 0) && Distinct(order) && n < |order|
    requires Progress(shares, remaining, received, dues, order, n)
    ensures var applied := Min(remaining, dues[order[n]]);
      Progress(shares[order[n] := applied], remaining - applied, received, dues, order, n + 1)
  {
    LeftStep(received, InOrder(dues, order), n);
    FillNext(shares, received, InOrder(dues, order), order, n);
  }

  /** The allocation loop with its early break. */
  method FillBuckets<B(==)>(received: Paise, dues: map<B, Paise>, order: seq<B>, buckets: seq<B>)
    returns (shares: map<B, Paise>, remaining: Paise)
    requires received >= 0 && ValidOrder(dues, order, buckets)
    ensures AllocationResult(shares, remaining) == Waterfall(received, dues, order)
  {
    remaining := received;
    shares := map b | b in buckets :: 0;
    NoProgressYet(shares, received, dues, order, buckets);
    var n := 0;
    while n < |order|
      invariant 0 <= n <= |order| && Progress(shares, remaining, received, dues, order, n)
    {
      if remaining <= 0 {
        break;
      }
      NextBucket(shares, remaining, received, dues, order, n);
      var bucket := order[n];
      var applied := Min(remaining, dues[bucket]);
      shares := shares[bucket := applied];
      remaining := remaining - applied;
      n := n + 1;
    }
    FilledIsWaterfall(received, dues, order, shares, remaining, n);
  }

  /** Stopping early, with nothing left, leaves what running to the end would. */
  lemma FilledIsWaterfall<B>(received: Paise, dues: map<B, Paise>, order: seq<B>, shares: map<B, Paise>, remaining: Paise, n: nat)
    requires (forall b :: b in order ==> b in dues && dues[b] >= 0)
    requires Progress(shares, remaining, received, dues, order, n) && (n == |order| || remaining <= 0)
    ensures AllocationResult(shares, remaining) == Waterfall(received, dues, order)
  {
    NothingLeftAfter(received, InOrder(dues, order), n);
    MatchesWaterfall(received, dues, order, shares, remaining);
  }

  /** Allocated has no InvariantViolated outcome, so that throw is proved unreachable here. */
  method AllocateRepayment<B(==)>(received: Paise, dues: map<B, Paise>, order: seq<B>, buckets: seq<B>)
    returns (r: Result<AllocationResult<B>, AllocationError<B>>)
    requires WellTyped(dues, order, buckets)
    ensures r == Allocated(received, dues, order, buckets)
  {
    if received < 0 {
      return Failure(ReceivedNegative);
    }
    if !Distinct(order) {
      return Failure(BucketRepeated);
    }
    var rejection := CheckBuckets(dues, order, buckets);
    if rejection.Some? {
      return Failure(rejection.value);
    }
    AcceptsExactlyValidOrders(received, dues, order, buckets);
    var shares, remaining := FillBuckets(received, dues, order, buckets);
    var total := SumOver(shares, buckets);
    SumOfAllocation(received, dues, order, buckets);
    if total + remaining != received {
      return Failure(InvariantViolated);
    }
    r := Success(AllocationResult(shares, remaining));
  }

  lemma MatchesWaterfall<B>(received: Paise, dues: map<B, Paise>, order: seq<B>, shares: map<B, Paise>, remaining: Paise)
    requires forall b :: b in order ==> b in dues
    requires forall b :: b in order <==> b in shares
    requires forall j {:trigger shares[order[j]]} :: 0 <= j < |order| ==> shares[order[j]] == Paid(received, InOrder(dues, order), j)
    requires remaining == Left(received, InOrder(dues, order), |order|)
    ensures AllocationResult(shares, remaining) == Waterfall(received, dues, order)
  {
    forall b | b in order ensures shares[b] == Paid(received, InOrder(dues, order), IndexOf(order, b)) {
      assert shares[order[IndexOf(order, b)]] == Paid(received, InOrder(dues, order), IndexOf(order, b));
    }
  }

  // ---------- Laws of the closed form ----------

  predicate NonNegative(due: seq<Paise>) {
    forall k :: 0 <= k < |due| ==> due[k] >= 0
  }

  lemma {:induction false} BeforeIsMonotone(due: seq<Paise>, k: nat)
    requires NonNegative(due) && k <= |due|
    ensures Before(due, k) >= 0
    ensures forall j :: k <= j <= |due| ==> Before(due, k) <= Before(due, j)
    decreases |due| - k
  {
    BeforeIsNonNegative(due, k);
    if k < |due| { BeforeIsMonotone(due, k + 1); }
  }

  lemma {:induction false} BeforeIsNonNegative(due: seq<Paise>, k: nat)
    requires NonNegative(due) && k <= |due|
    ensures Before(due, k) >= 0
  {
    if k > 0 { BeforeIsNonNegative(due, k - 1); }
  }

  lemma LeftStep(received: Paise, due: seq<Paise>, k: nat)
    requires NonNegative(due) && k < |due|
    ensures Left(received, due, k + 1) == Left(received, due, k) - Paid(received, due, k)
    ensures Left(received, due, k) >= 0
  {
  }

  /** Once the receipt is used up, or the dues are, the remaining buckets get nothing. */
  lemma NothingLeftAfter(received: Paise, due: seq<Paise>, n: nat)
    requires NonNegative(due) && n <= |due| && (n == |due| || Left(received, due, n) <= 0)
    ensures Left(received, due, n) == Left(received, due, |due|)
    ensures forall j {:trigger Paid(received, due, j)} :: n <= j < |due| ==> Paid(received, due, j) == 0
  {
    BeforeIsMonotone(due, n);
  }

  function Payments(received: Paise, due: seq<Paise>): (paid: seq<Paise>)
    ensures |paid| == |due| && forall k {:trigger paid[k]} :: 0 <= k < |due| ==> paid[k] == Paid(received, due, k)
  {
    seq(|due|, k requires 0 <= k < |due| => Paid(received, due, k))
  }

  /** The first k buckets together take the whole receipt or all their dues, whichever is less. */
  lemma {:induction false} PaymentsAddUp(received: Paise, due: seq<Paise>, k: nat)
    requires received >= 0 && NonNegative(due) && k <= |due|
    ensures Before(Payments(received, due), k) == Min(received, Before(due, k))
  {
    if k > 0 {
      PaymentsAddUp(received, due, k - 1);
      BeforeIsNonNegative(due, k - 1);
    }
  }

  /** Payments to the dues that respect both the dues and the receipt. */
  predicate Feasible(received: Paise, due: seq<Paise>, paid: seq<Paise>) {
    |paid| == |due| && NonNegative(paid) && Before(paid, |paid|) <= received
    && forall k :: 0 <= k < |due| ==> paid[k] <= due[k]
  }

  /**
   The waterfall is the lexicographically greatest feasible split: it is feasible, and any
   feasible split that agrees with it on the first k buckets gives bucket k no more.
   */
  lemma GreatestFeasibleSplit(received: Paise, due: seq<Paise>, other: seq<Paise>, k: nat)
    requires received >= 0 && NonNegative(due)
    ensures Feasible(received, due, Payments(received, due))
    ensures Feasible(received, due, other) && k < |due| && other[..k] == Payments(received, due)[..k]
        ==> other[k] <= Payments(received, due)[k]
  {
    PaymentsAddUp(received, due, |due|);
    if Feasible(received, due, other) && k < |due| && other[..k] == Payments(received, due)[..k] {
      SamePrefix(other, Payments(received, due), k);
      PaymentsAddUp(received, due, k);
      BeforeIsMonotone(other, k + 1);
    }
  }

  lemma {:induction false} SamePrefix(a: seq<Paise>, b: seq<Paise>, k: nat)
    requires k <= |a| && k <= |b| && a[..k] == b[..k]
    ensures Before(a, k) == Before(b, k)
  {
    if k > 0 {
      assert a[..k - 1] == a[..k][..k - 1] && b[..k - 1] == b[..k][..k - 1];
      assert a[k - 1] == a[..k][k - 1] && b[k - 1] == b[..k][k - 1];
      SamePrefix(a, b, k - 1);
    }
  }

  /** No bucket is paid before every earlier one is paid in full. */
  lemma EarlierBucketsFirst(received: Paise, due: seq<Paise>, j: nat, k: nat)
    requires NonNegative(due) && j < k < |due| && Paid(received, due, j) < due[j]
    ensures Paid(received, due, k) == 0
  {
    BeforeIsMonotone(due, j + 1);
  }

  // ---------- Conservation, whatever the order ----------

  lemma {:induction false} SumMatchesBefore<B>(amounts: map<B, Paise>, order: seq<B>)
    requires forall b :: b in order ==> b in amounts
    ensures SumOver(amounts, order) == Before(InOrder(amounts, order), |order|)
  {
    if order != [] {
      var shorter := order[..|order| - 1];
      SumMatchesBefore(amounts, shorter);
      var full, part := InOrder(amounts, order), InOrder(amounts, shorter);
      assert part == full[..|shorter|];
      SamePrefix(part, full, |shorter|);
    }
  }

  lemma {:induction false} SumWithout<B>(amounts: map<B, Paise>, s: seq<B>, k: nat)
    requires k < |s| && forall b :: b in s ==> b in amounts
    ensures SumOver(amounts, s) == SumOver(amounts, s[..k] + s[k + 1..]) + amounts[s[k]]
  {
    var n := |s| - 1;
    if k < n {
      var shorter := s[..n];
      SumWithout(amounts, shorter, k);
      assert (s[..k] + s[k + 1..])[..n - 1] == shorter[..k] + shorter[k + 1..];
    } else {
      assert s[..k] + s[k + 1..] == s[..n];
    }
  }

  /** Two listings of the same buckets without repeats have the same sum. */
  lemma {:induction false} SumIgnoresOrder<B>(amounts: map<B, Paise>, s: seq<B>, t: seq<B>)
    requires Distinct(s) && Distinct(t) && forall b :: b in s <==> b in t
    requires forall b :: b in s ==> b in amounts
    ensures SumOver(amounts, s) == SumOver(amounts, t)
    decreases |s|
  {
    if s == [] {
      OnlyEmptyHasNoMembers(t);
    } else {
      var last := s[|s| - 1];
      var k := IndexOf(t, last);
      var s', t' := s[..|s| - 1], t[..k] + t[k + 1..];
      SumWithout(amounts, t, k);
      RemoveKeepsRest(s, |s| - 1);
      RemoveKeepsRest(t, k);
      assert s[..|s| - 1] + s[|s| - 1 + 1..] == s';
      assert forall b :: b in s' <==> b in s && b != last;
      assert forall b :: b in t' <==> b in t && b != last;
      SumIgnoresOrder(amounts, s', t');
    }
  }

  lemma OnlyEmptyHasNoMembers<B>(t: seq<B>)
    ensures (forall b :: b !in t) ==> t == []
  {
    assert t == [] || t[0] in t;
  }

  lemma RemoveKeepsRest<B>(s: seq<B>, k: nat)
    requires Distinct(s) && k < |s|
    ensures Distinct(s[..k] + s[k + 1..])
    ensures forall b :: b in s[..k] + s[k + 1..] <==> b in s && b != s[k]
  {
    var rest := s[..k] + s[k + 1..];
    forall b | b in s && b != s[k] ensures b in rest {
      var i :| 0 <= i < |s| && s[i] == b;
      assert rest[if i < k then i else i - 1] == b;
    }
  }

  /** A valid order lists every bucket once. */
  predicate ValidOrder<B(==)>(dues: map<B, Paise>, order: seq<B>, buckets: seq<B>) {
    WellTyped(dues, order, buckets) && Distinct(order) && (forall b :: b in buckets ==> b in order)
    && forall b :: b in dues ==> dues[b] >= 0
  }

  /**
   Every paisa is accounted for: the buckets together receive min(receipt, total dues) and
   the rest stays unallocated, whatever the order.
   */
  lemma SumOfAllocation<B>(received: Paise, dues: map<B, Paise>, order: seq<B>, buckets: seq<B>)
    requires received >= 0 && ValidOrder(dues, order, buckets)
    ensures SumOver(Waterfall(received, dues, order).shares, buckets) == Min(received, SumOver(dues, buckets))
    ensures Waterfall(received, dues, order).unallocated == Max(0, received - SumOver(dues, buckets))
    ensures SumOver(Waterfall(received, dues, order).shares, buckets) + Waterfall(received, dues, order).unallocated == received
  {
    var shares := Waterfall(received, dues, order).shares;
    SumIgnoresOrder(dues, buckets, order);
    SumIgnoresOrder(shares, buckets, order);
    SumMatchesBefore(dues, order);
    SumMatchesBefore(shares, order);
    SharesInOrder(received, dues, order);
    PaymentsAddUp(received, InOrder(dues, order), |order|);
  }

  lemma SharesInOrder<B>(received: Paise, dues: map<B, Paise>, order: seq<B>)
    requires Distinct(order) && forall b :: b in order ==> b in dues
    ensures InOrder(Waterfall(received, dues, order).shares, order) == Payments(received, InOrder(dues, order))
  {
    var shares, due := Waterfall(received, dues, order).shares, InOrder(dues, order);
    forall k | 0 <= k < |order| ensures shares[order[k]] == Paid(received, due, k) {
      assert IndexOf(order, order[k]) == k;
    }
  }

  /** The checks of the original accept exactly the valid orders with nonnegative amounts. */
  lemma AcceptsExactlyValidOrders<B>(received: Paise, dues: map<B, Paise>, order: seq<B>, buckets: seq<B>)
    requires WellTyped(dues, order, buckets)
    ensures Allocated(received, dues, order, buckets).Success? <==> received >= 0 && ValidOrder(dues, order, buckets)
  {
    RejectsExactlyWhen(dues, order, buckets);
    assert (forall b :: b in buckets ==> dues[b] >= 0) ==> forall b :: b in dues ==> dues[b] >= 0;
  }

  lemma {:induction false} RejectsExactlyWhen<B>(dues: map<B, Paise>, order: seq<B>, buckets: seq<B>)
    requires forall b :: b in buckets ==> b in dues
    ensures Rejection(dues, order, buckets).None? <==> forall b :: b in buckets ==> b in order && dues[b] >= 0
  {
    if buckets != [] {
      RejectsExactlyWhen(dues, order, buckets[1..]);
      assert buckets == [buckets[0]] + buckets[1..];
    }
  }

  // ---------- What an accepted receipt returns ----------

  /**
   The first k buckets of the order take the receipt up to the sum of their dues, for every k,
   and what no due takes is the overpayment. Named without the loop or its closed form.
   */
  predicate IsAllocation<B(==)>(received: Paise, dues: map<B, Paise>, order: seq<B>, r: AllocationResult<B>)
    requires forall b :: b in order ==> b in dues
  {
    && r.shares.Keys == (set b | b in order)
    && (forall k: nat :: k <= |order| ==> PrefixTakes(received, dues, order, r.shares, k))
    && r.unallocated == Max(0, received - SumOver(dues, order))
  }

  predicate PrefixTakes<B(==)>(received: Paise, dues: map<B, Paise>, order: seq<B>, shares: map<B, Paise>, k: nat)
    requires k <= |order| && forall b :: b in order ==> b in dues && b in shares
  {
    SumOver(shares, order[..k]) == Min(received, SumOver(dues, order[..k]))
  }

  lemma SumOfPrefix<B>(amounts: map<B, Paise>, order: seq<B>, k: nat)
    requires k <= |order| && forall b :: b in order ==> b in amounts
    ensures SumOver(amounts, order[..k]) == Before(InOrder(amounts, order), k)
  {
    SumMatchesBefore(amounts, order[..k]);
    assert InOrder(amounts, order[..k])[..k] == InOrder(amounts, order)[..k];
    SamePrefix(InOrder(amounts, order[..k]), InOrder(amounts, order), k);
  }

  lemma WaterfallIsAllocation<B>(received: Paise, dues: map<B, Paise>, order: seq<B>, buckets: seq<B>)
    requires received >= 0 && ValidOrder(dues, order, buckets)
    ensures IsAllocation(received, dues, order, Waterfall(received, dues, order))
  {
    var shares := Waterfall(received, dues, order).shares;
    SharesInOrder(received, dues, order);
    forall k: nat | k <= |order| ensures PrefixTakes(received, dues, order, shares, k) {
      SumOfPrefix(shares, order, k);
      SumOfPrefix(dues, order, k);
      PaymentsAddUp(received, InOrder(dues, order), k);
    }
    SumMatchesBefore(dues, order);
  }

  lemma {:induction false} NextShare<B>(amounts: map<B, Paise>, order: seq<B>, k: nat)
    requires k < |order| && forall b :: b in order ==> b in amounts
    ensures SumOver(amounts, order[..k + 1]) == SumOver(amounts, order[..k]) + amounts[order[k]]
  {
    assert order[..k + 1][..k] == order[..k];
  }

  lemma OnlyOneAllocation<B>(received: Paise, dues: map<B, Paise>, order: seq<B>, r: AllocationResult<B>, r': AllocationResult<B>)
    requires forall b :: b in order ==> b in dues
    requires IsAllocation(received, dues, order, r) && IsAllocation(received, dues, order, r')
    ensures r == r'
  {
    forall b | b in order ensures r.shares[b] == r'.shares[b] {
      var k := IndexOf(order, b);
      assert PrefixTakes(received, dues, order, r.shares, k) && PrefixTakes(received, dues, order, r.shares, k + 1);
      assert PrefixTakes(received, dues, order, r'.shares, k) && PrefixTakes(received, dues, order, r'.shares, k + 1);
      NextShare(r.shares, order, k);
      NextShare(r'.shares, order, k);
    }
  }

  /**
   allocateRepayment accepts exactly a nonnegative receipt with a valid order, and returns the
   one allocation that meets the definition.
   */
  lemma AllocatedExactlyWhen<B>(received: Paise, dues: map<B, Paise>, order: seq<B>, buckets: seq<B>, r: AllocationResult<B>)
    requires WellTyped(dues, order, buckets)
    ensures Allocated(received, dues, order, buckets) == Success(r)
       <==> received >= 0 && ValidOrder(dues, order, buckets) && IsAllocation(received, dues, order, r)
  {
    AcceptsExactlyValidOrders(received, dues, order, buckets);
    if received >= 0 && ValidOrder(dues, order, buckets) {
      WaterfallIsAllocation(received, dues, order, buckets);
      if IsAllocation(received, dues, order, r) {
        OnlyOneAllocation(received, dues, order, r, Waterfall(received, dues, order));
      }
    }
  }

  /** Of the returned value: the shares over all buckets, the overpayment, and the two together. */
  lemma AllocatedAddsUp<B>(received: Paise, dues: map<B, Paise>, order: seq<B>, buckets: seq<B>)
    requires WellTyped(dues, order, buckets) && Allocated(received, dues, order, buckets).Success?
    ensures var r := Allocated(received, dues, order, buckets).value;
      && (forall b :: b in buckets ==> b in r.shares)
      && SumOver(r.shares, buckets) == Min(received, SumOver(dues, buckets))
      && r.unallocated == Max(0, received - SumOver(dues, buckets))
      && SumOver(r.shares, buckets) + r.unallocated == received
  {
    AcceptsExactlyValidOrders(received, dues, order, buckets);
    SumOfAllocation(received, dues, order, buckets);
  }

  /** Of the returned value: no share below zero or above its due, and none at all while an earlier due is short. */
  lemma AllocatedInOrder<B>(received: Paise, dues: map<B, Paise>, order: seq<B>, buckets: seq<B>, k: nat)
    requires WellTyped(dues, order, buckets) && Allocated(received, dues, order, buckets).Success? && k < |order|
    ensures var shares := Allocated(received, dues, order, buckets).value.shares;
      && (forall b :: b in order ==> b in shares) && 0 <= shares[order[k]] <= dues[order[k]]
      && (forall j :: 0 <= j < k && shares[order[j]] < dues[order[j]] ==> shares[order[k]] == 0)
  {
    AcceptsExactlyValidOrders(received, dues, order, buckets);
    var due := InOrder(dues, order);
    var shares := Waterfall(received, dues, order).shares;
    SharesInOrder(received, dues, order);
    assert shares[order[k]] == InOrder(shares, order)[k];
    LeftStep(received, due, k);
    forall j | 0 <= j < k && shares[order[j]] < dues[order[j]] ensures shares[order[k]] == 0 {
      assert shares[order[j]] == InOrder(shares, order)[j];
      EarlierBucketsFirst(received, due, j, k);
    }
  }

  predicate FineBefore<B(==)>(dues: map<B, Paise>, order: seq<B>, buckets: seq<B>, i: nat)
    requires i <= |buckets| && forall b :: b in buckets ==> b in dues
  {
    forall j :: 0 <= j < i ==> buckets[j] in order && dues[buckets[j]] >= 0
  }

  lemma {:induction false} RejectionIsFirst<B>(dues: map<B, Paise>, order: seq<B>, buckets: seq<B>, i: nat)
    requires i < |buckets| && (forall b :: b in buckets ==> b in dues) && FineBefore(dues, order, buckets, i)
    ensures buckets[i] !in order ==> Rejection(dues, order, buckets) == Some(BucketMissing(buckets[i]))
    ensures buckets[i] in order && dues[buckets[i]] < 0 ==> Rejection(dues, order, buckets) == Some(DueNegative(buckets[i]))
    decreases i
  {
    if i > 0 {
      assert buckets[0] in order && dues[buckets[0]] >= 0;
      RejectionIsFirst(dues, order, buckets[1..], i - 1);
    }
  }

  /** The refusals in the order in which they are made; among the buckets the first at fault decides. */
  lemma AllocationRefusals<B>(received: Paise, dues: map<B, Paise>, order: seq<B>, buckets: seq<B>, i: nat)
    requires WellTyped(dues, order, buckets) && i < |buckets| && FineBefore(dues, order, buckets, i)
    ensures var r := Allocated(received, dues, order, buckets);
      && (r == Failure(ReceivedNegative) <==> received < 0)
      && (r == Failure(BucketRepeated) <==> received >= 0 && !Distinct(order))
      && (received >= 0 && Distinct(order) && buckets[i] !in order ==> r == Failure(BucketMissing(buckets[i])))
      && (received >= 0 && Distinct(order) && buckets[i] in order && dues[buckets[i]] < 0 ==> r == Failure(DueNegative(buckets[i])))
      && r != Failure(InvariantViolated)
  {
    RejectionIsFirst(dues, order, buckets, i);
    RejectionKinds(dues, order, buckets);
  }

  lemma {:induction false} RejectionKinds<B>(dues: map<B, Paise>, order: seq<B>, buckets: seq<B>)
    requires forall b :: b in buckets ==> b in dues
    ensures Rejection(dues, order, buckets).Some? ==>
      Rejection(dues, order, buckets).value.BucketMissing? || Rejection(dues, order, buckets).value.DueNegative?
  {
    if buckets != [] { RejectionKinds(dues, order, buckets[1..]); }
  }

  // ---------- Successive receipts compose ----------

  /** What is still due after a receipt. */
  function Residual(received: Paise, due: seq<Paise>): (left: seq<Paise>)
    ensures |left| == |due| && forall k {:trigger left[k]} :: 0 <= k < |due| ==> left[k] == due[k] - Paid(received, due, k)
  {
    seq(|due|, k requires 0 <= k < |due| => due[k] - Paid(received, due, k))
  }

  function Unallocated(received: Paise, due: seq<Paise>): Paise {
    Left(received, due, |due|)
  }

  lemma {:induction false} ResidualBefore(received: Paise, due: seq<Paise>, k: nat)
    requires received >= 0 && NonNegative(due) && k <= |due|
    ensures Before(Residual(received, due), k) == Max(0, Before(due, k) - received)
  {
    if k > 0 {
      ResidualBefore(received, due, k - 1);
      BeforeIsNonNegative(due, k - 1);
      var left := Residual(received, due);
      assert left[k - 1] == due[k - 1] - Min(due[k - 1], Max(0, received - Before(due, k - 1)));
      assert Before(left, k) == Before(left, k - 1) + left[k - 1];
    }
  }

  lemma PaymentsCompose(a: Paise, b: Paise, sum: Paise, due: seq<Paise>)
    requires a >= 0 && b >= 0 && sum == a + b && NonNegative(due)
    ensures NonNegative(Residual(a, due))
    ensures forall k {:trigger Paid(sum, due, k)} :: 0 <= k < |due| ==> Paid(a, due, k) + Paid(b, Residual(a, due), k) == Paid(sum, due, k)
    ensures Residual(b, Residual(a, due)) == Residual(sum, due)
    ensures Unallocated(a, due) + Unallocated(b, Residual(a, due)) == Unallocated(sum, due)
  {
    forall k | 0 <= k < |due|
      ensures Residual(a, due)[k] >= 0 && Paid(a, due, k) + Paid(b, Residual(a, due), k) == Paid(sum, due, k)
    {
      ResidualBefore(a, due, k);
      BeforeIsNonNegative(due, k);
      PaidInTwo(a, b, Before(due, k), due[k]);
    }
    UnallocatedComposes(a, b, sum, due, Residual(a, due));
  }

  lemma UnallocatedComposes(a: Paise, b: Paise, sum: Paise, due: seq<Paise>, left: seq<Paise>)
    requires a >= 0 && b >= 0 && sum == a + b && NonNegative(due) && left == Residual(a, due)
    ensures Unallocated(a, due) + Unallocated(b, left) == Unallocated(sum, due)
  {
    ResidualBefore(a, due, |due|);
    BeforeIsNonNegative(due, |due|);
    assert Before(left, |left|) == Max(0, Before(due, |due|) - a);
  }

  lemma PaidInTwo(a: int, b: int, before: int, due: int)
    requires a >= 0 && b >= 0 && before >= 0 && due >= 0
    ensures var first := Min(due, Max(0, a - before));
      0 <= first <= due &&
      first + Min(due - first, Max(0, b - Max(0, before - a))) == Min(due, Max(0, a + b - before))
  {
  }

  /** The dues that remain once an allocation's shares are paid. */
  function DuesLeft<B(==)>(received: Paise, dues: map<B, Paise>, order: seq<B>): (left: map<B, Paise>)
    requires forall b :: b in order ==> b in dues
    ensures left.Keys == set b | b in order
  {
    map b | b in order :: dues[b] - Waterfall(received, dues, order).shares[b]
  }

  lemma DuesLeftInOrder<B>(received: Paise, dues: map<B, Paise>, order: seq<B>, buckets: seq<B>)
    requires received >= 0 && ValidOrder(dues, order, buckets)
    ensures InOrder(DuesLeft(received, dues, order), order) == Residual(received, InOrder(dues, order))
    ensures ValidOrder(DuesLeft(received, dues, order), order, buckets)
  {
    LeftMatchesResidual(received, dues, order);
    PaymentsCompose(received, 0, received, InOrder(dues, order));
    StillValid(dues, DuesLeft(received, dues, order), order, buckets);
  }

  lemma LeftMatchesResidual<B>(received: Paise, dues: map<B, Paise>, order: seq<B>)
    requires Distinct(order) && forall b :: b in order ==> b in dues
    ensures InOrder(DuesLeft(received, dues, order), order) == Residual(received, InOrder(dues, order))
  {
    SharesInOrder(received, dues, order);
    LessShares(received, dues, Waterfall(received, dues, order).shares, DuesLeft(received, dues, order), order);
  }

  lemma LessShares<B>(received: Paise, dues: map<B, Paise>, shares: map<B, Paise>, left: map<B, Paise>, order: seq<B>)
    requires forall b :: b in order ==> b in dues && b in shares && b in left && left[b] == dues[b] - shares[b]
    requires InOrder(shares, order) == Payments(received, InOrder(dues, order))
    ensures InOrder(left, order) == Residual(received, InOrder(dues, order))
  {
    forall k | 0 <= k < |order| ensures InOrder(left, order)[k] == Residual(received, InOrder(dues, order))[k] {
      assert shares[order[k]] == InOrder(shares, order)[k];
    }
  }

  lemma StillValid<B>(dues: map<B, Paise>, left: map<B, Paise>, order: seq<B>, buckets: seq<B>)
    requires ValidOrder(dues, order, buckets) && left.Keys == (set b | b in order) && NonNegative(InOrder(left, order))
    ensures ValidOrder(left, order, buckets)
  {
    forall b | b in left ensures left[b] >= 0 {
      assert left[b] == InOrder(left, order)[IndexOf(order, b)];
    }
  }

  /** Equal amounts in the order of the buckets are equal amounts. */
  lemma SameInOrder<B>(x: map<B, Paise>, y: map<B, Paise>, order: seq<B>)
    requires (forall b :: b in x <==> b in order) && (forall b :: b in y <==> b in order)
    requires InOrder(x, order) == InOrder(y, order)
    ensures x == y
  {
    forall b | b in order ensures x[b] == y[b] {
      assert InOrder(x, order)[IndexOf(order, b)] == InOrder(y, order)[IndexOf(order, b)];
    }
  }

  lemma DuesLeftCompose<B>(a: Paise, b: Paise, sum: Paise, dues: map<B, Paise>, left: map<B, Paise>, order: seq<B>, buckets: seq<B>)
    requires a >= 0 && b >= 0 && sum == a + b && ValidOrder(dues, order, buckets) && left == DuesLeft(a, dues, order)
    ensures ValidOrder(left, order, buckets) && DuesLeft(b, left, order) == DuesLeft(sum, dues, order)
    ensures Waterfall(a, dues, order).unallocated + Waterfall(b, left, order).unallocated == Waterfall(sum, dues, order).unallocated
  {
    PaymentsCompose(a, b, sum, InOrder(dues, order));
    DuesLeftInOrder(a, dues, order, buckets);
    DuesLeftInOrder(b, left, order, buckets);
    DuesLeftInOrder(sum, dues, order, buckets);
    SameInOrder(DuesLeft(b, left, order), DuesLeft(sum, dues, order), order);
  }

  lemma SharesCompose<B>(a: Paise, b: Paise, sum: Paise, dues: map<B, Paise>, left: map<B, Paise>, order: seq<B>, x: B)
    requires (forall y :: y in order ==> y in dues) && x in order && left == DuesLeft(a, dues, order)
    requires DuesLeft(b, left, order) == DuesLeft(sum, dues, order)
    ensures Waterfall(a, dues, order).shares[x] + Waterfall(b, left, order).shares[x] == Waterfall(sum, dues, order).shares[x]
  {
    assert left[x] == dues[x] - Waterfall(a, dues, order).shares[x];
    assert DuesLeft(b, left, order)[x] == left[x] - Waterfall(b, left, order).shares[x];
    assert DuesLeft(sum, dues, order)[x] == dues[x] - Waterfall(sum, dues, order).shares[x];
  }

  lemma AllocatedIsWaterfall<B>(received: Paise, dues: map<B, Paise>, order: seq<B>, buckets: seq<B>)
    requires received >= 0 && ValidOrder(dues, order, buckets)
    ensures Allocated(received, dues, order, buckets) == Success(Waterfall(received, dues, order))
  {
    AcceptsExactlyValidOrders(received, dues, order, buckets);
  }

  /** Two allocations give every bucket, and leave over, what a third one does. */
  predicate AddUp<B(==)>(first: AllocationResult<B>, second: AllocationResult<B>, once: AllocationResult<B>, buckets: seq<B>) {
    && (forall x :: x in buckets ==>
          x in first.shares && x in second.shares && x in once.shares && first.shares[x] + second.shares[x] == once.shares[x])
    && first.unallocated + second.unallocated == once.unallocated
  }

  /**
   Allocating a, and then b to the dues that a left, is allocating their sum once: the receipts
   are accepted, every bucket gets the same in all and so does the overpayment.
   */
  lemma AllocationComposes<B>(a: Paise, b: Paise, sum: Paise, dues: map<B, Paise>, order: seq<B>, buckets: seq<B>)
    requires a >= 0 && b >= 0 && sum == a + b && ValidOrder(dues, order, buckets)
    ensures ValidOrder(DuesLeft(a, dues, order), order, buckets)
    ensures Allocated(a, dues, order, buckets).Success? && Allocated(sum, dues, order, buckets).Success?
    ensures Allocated(b, DuesLeft(a, dues, order), order, buckets).Success?
    ensures AddUp(Allocated(a, dues, order, buckets).value, Allocated(b, DuesLeft(a, dues, order), order, buckets).value,
                  Allocated(sum, dues, order, buckets).value, buckets)
  {
    var left := DuesLeft(a, dues, order);
    DuesLeftCompose(a, b, sum, dues, left, order, buckets);
    AllocatedIsWaterfall(a, dues, order, buckets);
    AllocatedIsWaterfall(b, left, order, buckets);
    AllocatedIsWaterfall(sum, dues, order, buckets);
    forall x | x in buckets
      ensures Waterfall(a, dues, order).shares[x] + Waterfall(b, left, order).shares[x] == Waterfall(sum, dues, order).shares[x]
    {
      SharesCompose(a, b, sum, dues, left, order, x);
    }
  }

  /** What a borrower still owes, bucket by bucket, and has overpaid so far. */
  datatype Account<B(==)> = Account(dues: map<B, Paise>, overpaid: Paise)

  function Receive<B(==)>(received: Paise, account: Account<B>, order: seq<B>): (next: Account<B>)
    requires forall b :: b in order ==> b in account.dues
    ensures next.dues.Keys == set b | b in order
  {
    Account(DuesLeft(received, account.dues, order), account.overpaid + Waterfall(received, account.dues, order).unallocated)
  }

  /** A series of receipts, each allocated to what the ones before it left. */
  function ReceiveAll<B(==)>(receipts: seq<Paise>, account: Account<B>, order: seq<B>): (next: Account<B>)
    requires forall b :: b in order ==> b in account.dues
    ensures forall b :: b in order ==> b in next.dues
  {
    if receipts == [] then account
    else Receive(receipts[|receipts| - 1], ReceiveAll(receipts[..|receipts| - 1], account, order), order)
  }

  lemma ReceiveNothing<B>(account: Account<B>, order: seq<B>, buckets: seq<B>)
    requires ValidOrder(account.dues, order, buckets)
    ensures Receive(0, account, order) == account
  {
    var due := InOrder(account.dues, order);
    NothingPaid(due);
    DuesLeftInOrder(0, account.dues, order, buckets);
    SameInOrder(DuesLeft(0, account.dues, order), account.dues, order);
  }

  lemma NothingPaid(due: seq<Paise>)
    requires NonNegative(due)
    ensures Residual(0, due) == due && Unallocated(0, due) == 0
  {
    BeforeIsMonotone(due, 0);
    forall k | 0 <= k < |due| ensures Paid(0, due, k) == 0 {
      BeforeIsNonNegative(due, k);
    }
  }

  lemma ReceiveTwice<B>(a: Paise, b: Paise, sum: Paise, account: Account<B>, order: seq<B>, buckets: seq<B>)
    requires a >= 0 && b >= 0 && sum == a + b && ValidOrder(account.dues, order, buckets)
    ensures ValidOrder(Receive(a, account, order).dues, order, buckets)
    ensures Receive(b, Receive(a, account, order), order) == Receive(sum, account, order)
  {
    DuesLeftCompose(a, b, sum, account.dues, DuesLeft(a, account.dues, order), order, buckets);
    DuesLeftInOrder(sum, account.dues, order, buckets);
  }

  /**
   Any number of receipts are all accepted, and leave the dues and the overpayment that their
   sum leaves at once.
   */
  lemma {:induction false} ReceiptsCompose<B>(receipts: seq<Paise>, account: Account<B>, order: seq<B>, buckets: seq<B>)
    requires NonNegative(receipts) && ValidOrder(account.dues, order, buckets)
    ensures SumMoney(receipts) >= 0
    ensures ReceiveAll(receipts, account, order) == Receive(SumMoney(receipts), account, order)
    ensures ValidOrder(ReceiveAll(receipts, account, order).dues, order, buckets)
  {
    if receipts == [] {
      ReceiveNothing(account, order, buckets);
    } else {
      var n := |receipts| - 1;
      ReceiptsCompose(receipts[..n], account, order, buckets);
      ReceiveTwice(SumMoney(receipts[..n]), receipts[n], SumMoney(receipts), account, order, buckets);
      DuesLeftInOrder(SumMoney(receipts), account.dues, order, buckets);
    }
  }

  /** The default order of the original passes its own checks. */
  lemma DefaultOrderIsValid(dues: map<DueBucket, Paise>)
    requires forall b: DueBucket :: b in dues && dues[b] >= 0
    ensures ValidOrder(dues, DEFAULT_ALLOCATION_ORDER, DEFAULT_ALLOCATION_ORDER)
  {
    forall b: DueBucket ensures b in DEFAULT_ALLOCATION_ORDER {
      match b
      case Penalty => assert DEFAULT_ALLOCATION_ORDER[0] == b;
      case Fees => assert DEFAULT_ALLOCATION_ORDER[1] == b;
      case Interest => assert DEFAULT_ALLOCATION_ORDER[2] == b;
      case Principal => assert DEFAULT_ALLOCATION_ORDER[3] == b;
    }
  }
}
