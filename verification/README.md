# Lending platform: pricing, repayment, sessions and idempotency

A Dafny model of the parts of the lending platform whose correctness spans more than one
function: the pricing arithmetic of `packages/money`, the repayment waterfall, the session and
one-time-code tables of the authentication service with the guard that reads them, and the
idempotency protocol. Loops and services that update state are methods and classes here, each
proved equal to a recursive function or a step function; the theorems are about those functions,
for all inputs and all runs.

| file | subject |
|---|---|
| `Prelude.dfy`, `RealPowers.dfy` | options and results; powers, geometric and discount sums over reals |
| `Rounding.dfy`, `Money.dfy` | half-even rounding (section 4.3.1 of IEEE 754-2019) and amounts in paise |
| `Calendar.dfy` | UTC dates and month arithmetic (section 21.4.1 of ECMA-262) |
| `Amortization.dfy`, `ScheduleLaws.dfy` | the schedule loop, and what every schedule guarantees |
| `ScheduleSpec.dfy` | the schedule defined without the loop, and that the loop returns that one |
| `Apr.dfy`, `AprLaws.dfy` | the bracketing and bisection loops, and what the returned rate means |
| `ContractRate.dfy` | the schedule valued at its own rate; how fees move the APR |
| `Quote.dfy` | the quote built from the three above |
| `Allocation.dfy` | the waterfall over any number of buckets |
| `AuthTables.dfy`, `AuthService.dfy` | tables, one step function a call; the service as a class |
| `AuthSessions.dfy`, `AuthOtp.dfy` | refresh-token families and one-time-code limits over every run |
| `AuthGuesses.dfy` | what a verification answers, and wrong guesses counted over the calls of a run |
| `AuthHistory.dfy` | where the sessions and revocations of a run come from |
| `AuthDecisions.dfy` | when a code is sent, what a refresh returns, whom the guard accepts |
| `Idempotency.dfy` | the key table, its service, and every interleaving of requests |

`dafny verify dfyconfig.toml` checks the whole project.

## Assumptions

- Money is an integer number of paise and rates are exact reals: `Decimal` keeps 34 significant
  digits, which is taken as exact.
- `Decimal.isPositive` looks at the sign alone and so is true of zero; the bracket and bisection
  loops of `apr.ts` inherit that (a net present value of exactly zero raises the lower bound).
  `Money.isPositive` is strict.
- Service calls of `AuthService` are serialised: the code reads a row before the transaction that
  writes it, so each call is one step here. Clocks of the service and the database agree and
  never run backwards.
- Keyed hashes are injective, every sign-in draws a family id no session carries, and unique-index
  inserts are atomic. A token that repeats is refused by the unique index and the call fails.
- Requests of the idempotency protocol interleave freely, one database operation at a time. Its
  writes succeed, and a handler yields one value or one error.

## Where the code and its comments differ

- `amortization.ts` 88-92 says a schedule never over- or under-collects by a paisa. The flat method
  accepts a fractional tenure, and then no row is final: 10 rupees over 2.5 months at 0% repay
  8 rupees (`ScheduleLaws.FractionalTenureLosesPrincipal`). That input reaches the package function
  but not the HTTP API, whose `apps/api/src/modules/products/dto.ts` requires an integer tenure.
  `ScheduleLaws.ConservesExactlyWhen` is the exact condition. Over whole months the sum is exact,
  but a very small loan passes through a negative balance: 6 paise over 10 months at 0%
  (`ScheduleLaws.TinyLoanOverCollects`). `ScheduleLaws.NeverOverCollectsExactlyWhen` gives the exact
  condition as the balance the final row opens with; only its closed form for flat loans and for 0%
  (`ScheduleLaws.FlatNeverOverCollectsExactlyWhen`) can be checked before the call.
- `apr.ts` 31-36 says upfront fees therefore raise the APR above the nominal rate. A fee has to make
  up for what rounding took off the interest: 45 paise over 4 months at 12% with a 1 paisa fee are
  quoted below 1% a month (`ContractRate.TinyFeeIsLostInRounding`). The exact condition is
  `ContractRate.FeesRaiseAprExactlyWhen`: the rates a bisection can return are midpoints of the
  cells of a grid, and a fee raises the APR exactly when it is at least what the instalments, valued
  at the grid point nearest to the contract rate, fall short of the principal.

## Model

| member | source | states |
|---|---|---|
| Rounding.Nearest | packages/money/src/money.ts:41-44 | Half-even rounding is off by at most half a unit and lands on the even neighbour of a tie. |
| Rounding.NearestIsUnique | packages/money/src/money.ts:41-44 | Those two facts determine the rounded value, so they are a complete specification of it. |
| Rounding.Monotone | packages/money/src/money.ts:41-44 | A larger value never rounds lower. |
| Rounding.Odd | packages/money/src/money.ts:41-44 | Rounding commutes with negation. |
| Money.MajorRoundTrip | packages/money/src/money.ts:108-110 | Paise to major units and back is the identity. |
| Money.MultiplyNearest | packages/money/src/money.ts:62-66 | Multiplying by a rate rounds once: the product in paise to the nearest paisa, within half a paisa. |
| Money.MultiplyMonotone | packages/money/src/money.ts:62-66 | At a nonnegative rate a larger amount never bears less interest. |
| Calendar.AddMonths | packages/money/src/amortization.ts:46-54 | The mutated Date objects end on the modelled due date for every year, with `Date.UTC` reading a year from 0 to 99 as one of the 1900s. |
| Calendar.AddsMonthsExactlyWhen | packages/money/src/amortization.ts:46-54 | That is the promised date, so many calendar months on and clamped, exactly when the first year is not from 0 to 99 and the target is not a 29th or later in February of year 0; so always from year 100 on. |
| Calendar.NoDrift | packages/money/src/amortization.ts:132 | The promised date for row k is exactly k calendar months after the first, on the first day of month number or the last day of a shorter month. |
| Calendar.YearLength | packages/money/src/amortization.ts:46-54 | The day count of ECMA-262 steps by 365 or 366 exactly as the leap-year rule says. |
| Calendar.MonthsStartOnDay | packages/money/src/amortization.ts:46-54 | Each month starts on the day of the year that ECMA-262 lists, with the leap day after February. |
| Calendar.MonthlyGaps | packages/money/src/amortization.ts:132 | Consecutive due dates as computed are 28 to 31 days apart, across leap years and year ends, with exactly one exception in year 0. |
| Calendar.DueDatesIncrease | packages/money/src/amortization.ts:132 | Over any stretch of rows the computed due dates strictly increase, by at least 28 days a row and at most 31 from year 100 on. |
| Calendar.StepwiseWouldDrift | packages/money/src/amortization.ts:132 | Counting from the previous row would drift, which is why rows count from the first. |
| Amortization.RowsLoop | packages/money/src/amortization.ts:106-140 | The loop returns exactly the rows of the rounded recurrence, whatever the inputs; its throw for uncovered interest is unreachable. |
| Amortization.BuildSchedule | packages/money/src/amortization.ts:93-152 | The first refusal in the original's order, or those rows with their totals. |
| ScheduleSpec.ScheduleExactlyWhen | packages/money/src/amortization.ts:93-152 | The returned schedule is the one that meets a definition given without the loop: the rounded instalment, a row a month chained from the loan, each interest the rounded share of its base, every ordinary total the instalment, a final row that closes at zero, and totals that are the sums of the rows. It is returned exactly for accepted requests. |
| ScheduleSpec.OnlyOneSchedule | packages/money/src/amortization.ts:93-152 | That definition leaves no freedom: two schedules that meet it are equal. |
| ScheduleSpec.ScheduleRefusals | packages/money/src/amortization.ts:73-98 | Exactly when each refusal is made, and that the one inside the loop never is. |
| ScheduleSpec.ReturnedScheduleCloses | packages/money/src/amortization.ts:88-152 | Over whole months the returned rows run from the loan to zero and repay it exactly, on the promised calendar days from year 100 on. |
| Amortization.EquatedIsRounded | packages/money/src/amortization.ts:57-86 | Both branches of the EMI formula round one value: principal times growth over the geometric sum. |
| Amortization.ExactCoversInterest | packages/money/src/amortization.ts:64-86 | The unrounded instalment is at least the first period's interest. |
| Amortization.FlatCoversInterest | packages/money/src/amortization.ts:154-160 | The flat instalment covers the flat interest for any positive tenure, whole or not, at any rate. |
| Amortization.BalanceNeverRises | packages/money/src/amortization.ts:109-140 | If the instalment covers the first interest, balances and interest never rise and principal parts never shrink. |
| Amortization.InstalmentCoversInterest | packages/money/src/amortization.ts:125-127 | Every ordinary row of every accepted request covers its interest. |
| ScheduleLaws.ScheduleConserves | packages/money/src/amortization.ts:106-152 | Over whole months rows chain, the last closes at zero, principal parts sum exactly to the loan, and row totals sum to the total payable. |
| ScheduleLaws.ConservesExactlyWhen | packages/money/src/amortization.ts:88-152 | For every schedule, fractional tenures included, exactly when the principal parts sum to the loan. |
| ScheduleLaws.FractionalTenureLosesPrincipal | packages/money/src/amortization.ts:88-110 | A flat loan over 2.5 months for which they do not. |
| ScheduleLaws.RowsAreOrdered | packages/money/src/amortization.ts:109-140 | In the schedule itself: nonnegative ordinary principal, nonincreasing balance and interest, nondecreasing principal. |
| ScheduleLaws.ExactInstallmentClears | packages/money/src/amortization.ts:64-86 | The exact instalment brings the unrounded balance to zero after n periods. |
| ScheduleLaws.RoundedTracksExact | packages/money/src/amortization.ts:109-140 | After k rows the rounded balance is within 1 + g + ... + g^(k-1) paise of the exact one, g being 1 + rate. |
| ScheduleLaws.FinalInstalmentResidue | packages/money/src/amortization.ts:84-140 | The final reducing instalment differs from the EMI by at most 1 + g + ... + g^(n-1) paise. |
| ScheduleLaws.FlatFinalInstalmentResidue | packages/money/src/amortization.ts:119-160 | The final flat instalment differs from the EMI by at most n paise. |
| ScheduleLaws.NeverOverCollectsExactlyWhen | packages/money/src/amortization.ts:109-140 | All five amounts of every row are nonnegative exactly when the final row opens with a nonnegative balance. |
| ScheduleLaws.FlatNeverOverCollectsExactlyWhen | packages/money/src/amortization.ts:109-160 | For flat loans, and any loan at 0%, exactly when n-1 principal parts do not exceed the principal. |
| ScheduleLaws.LargeFlatLoansNeverOverCollect | packages/money/src/amortization.ts:109-160 | A flat loan of at least n squared paise never over-collects. |
| ScheduleLaws.LargeReducingLoansNeverOverCollect | packages/money/src/amortization.ts:84-140 | Nor does a reducing loan whose exact instalment is at least (1+i) s_(n-1) paise. |
| ScheduleLaws.TinyLoanOverCollects | packages/money/src/amortization.ts:88-140 | The size condition is needed: 6 paise over 10 months at 0% end with a principal part of -3 paise. |
| ScheduleLaws.FlatNeverCostsLess | packages/money/src/amortization.ts:115-142 | The same loan under the flat method bears at least as much interest, row by row and in total. |
| Apr.BracketLoop | packages/money/src/apr.ts:61-68 | The doubling loop terminates with the first bound in its sequence that has a negative net present value, or gives up past 1000. |
| Apr.BisectionLoop | packages/money/src/apr.ts:70-77 | The 200-step loop computes the recursive bisection that the laws below are about. |
| Apr.CalculateApr | packages/money/src/apr.ts:40-87 | All four refusals in order, else the midpoint of the final interval with the quoted net and total. |
| AprLaws.PresentValueDecreases | packages/money/src/apr.ts:25-29 | Nonnegative instalments are worth less at a higher rate, strictly if any is positive. |
| AprLaws.AtMostOneRoot | packages/money/src/apr.ts:31-33 | At most one rate makes the present value equal the net amount. |
| AprLaws.BisectKeepsBracket | packages/money/src/apr.ts:70-77 | Every halving keeps the upper end negative and the lower end its start or nonnegative, and halves the width. |
| AprLaws.RateIsSignChange | packages/money/src/apr.ts:61-78 | The returned rate is within bracket/2^201 of the sign change of the net present value, on both sides. |
| AprLaws.RootIsNearRate | packages/money/src/apr.ts:61-78 | Every exact root is within bracket/2^201 of the returned rate. |
| AprLaws.BracketTriesPowersOfTwo | packages/money/src/apr.ts:61-68 | The loop tries exactly the powers of two up to 512, with no assumption on the instalments. |
| AprLaws.BracketRefusedExactlyWhen | packages/money/src/apr.ts:61-68 | For nonnegative instalments it refuses exactly when they are still worth the net amount at 512; else the bound is at most 512. |
| AprLaws.BracketIsFirstPower | packages/money/src/apr.ts:61-68 | A bracket that is found is the first power of two with a negative net present value. |
| AprLaws.ToleranceScale | packages/money/src/apr.ts:70-78 | The tolerance of these laws is the bracket over 2^201: 200 halvings and the midpoint. |
| AprLaws.BisectionsStayOrdered | packages/money/src/apr.ts:70-77 | Two bisections of a common interval, one deal dominating the other, end in the same cell or in ordered disjoint ones. |
| AprLaws.BracketsStayOrdered | packages/money/src/apr.ts:61-68 | The dominating deal never brackets earlier; if later, its last rejected bound is above the other bracket. |
| AprLaws.AprIsMonotone | packages/money/src/apr.ts:40-87 | A larger deduction or larger instalments never lower the periodic rate nor the nominal percentage shown. |
| AprLaws.AprReturns | packages/money/src/apr.ts:80-86 | What is returned: the net and the total it was given, and as percentage the periodic rate times the periods of a year, rounded to four decimals with ties to even. |
| AprLaws.AprIsSignChange | packages/money/src/apr.ts:61-78 | The returned rate itself is within the tolerance of the sign change, on both sides. |
| ContractRate.WorthTelescopes | packages/money/src/amortization.ts:109-140 | Discounted row totals of any chained rows: opening, less discounted close, plus discounted interest errors. |
| ContractRate.WorthAtContractRate | packages/money/src/amortization.ts:116-139 | Discounted at the contract rate a reducing schedule is worth its principal up to half a discount sum, at most n/2 paise. |
| ContractRate.FeesRaiseApr | packages/money/src/apr.ts:31-36 | A deduction above n/2 paise makes the contract rate's net present value positive, so the returned rate exceeds it less the tolerance. |
| AprLaws.BisectEndsInCell | packages/money/src/apr.ts:70-77 | Bisecting any interval ends in one whole cell of the grid that so many halvings lay over it, with no assumption on the instalments. |
| AprLaws.SolutionIsAboveExactlyWhen | packages/money/src/apr.ts:61-78 | The returned rate is above a given rate exactly when the net present value at the grid point nearest to that rate is not negative. |
| ContractRate.AprExceedsExactlyWhen | packages/money/src/apr.ts:40-78 | For any nonnegative instalments and any rate: the APR is above it exactly when the deduction is at least the principal less what the instalments are worth at the nearest grid point. |
| ContractRate.FeesRaiseAprExactlyWhen | packages/money/src/apr.ts:31-36 | The same for a schedule and its own contract rate, under either methodology: exactly when a fee raises the APR above the nominal rate. |
| ContractRate.FeesAgainstRounding | packages/money/src/apr.ts:31-36 | To within the tolerance the rounding errors at the contract rate decide: a deduction that makes up for their discounted sum puts the rate on the upper side, a smaller one on the lower. |
| ContractRate.FeesStrictlyRaiseApr | packages/money/src/apr.ts:31-36 | Beyond n/2 paise plus a margin of 2^-192 n times the total payable, the rate is strictly above the contract rate. |
| ContractRate.PresentValueIsLipschitz | packages/money/src/apr.ts:25-29 | Raising the rate by h costs at most n h times the undiscounted total. |
| ContractRate.AprRefusesExactlyWhen | packages/money/src/apr.ts:42-68 | Exactly when each of the four refusals is made; the last, for nonnegative instalments, when they are still worth the net at 51200% a period. |
| ContractRate.TinyFeeIsLostInRounding | packages/money/src/apr.ts:31-36 | A fee that does not raise the APR: 45 paise, 4 months, 12%, 1 paisa deducted, quoted below 1% a month. |
| Quote.QuoteExactlyWhen | packages/money/src/quote.ts:42-92 | The returned quote is the one that meets a definition of its own: the fee is its percentage within the bounds given, else the floor or the cap; the tax is on that fee; the charges reach the borrower in exactly one place; the APR is that of the quoted cash at 12 periods a year. It is returned exactly when there is one. |
| Quote.ScheduleRefusalIsPassedOn | packages/money/src/quote.ts:55-63 | A quote is refused with the schedule's refusal exactly when there is one. |
| Quote.AprRefusalIsPassedOn | packages/money/src/quote.ts:70-77 | It is refused with the APR's refusal exactly when the schedule stands and the APR of the quoted cash is refused. |
| Quote.QuotedCharges | packages/money/src/quote.ts:42-68 | A quoted fee obeys its floor and cap, the cap first, and fee and tax are within half a paisa of their percentages. |
| Quote.CashIdentity | packages/money/src/quote.ts:79-92 | In both modes payable less net in hand is the total cost of credit, exactly when the schedule repays the principal; always so over whole months. |
| Quote.AprSeesTheQuotedCash | packages/money/src/quote.ts:70-92 | The APR is computed from the net and the instalment total that the quote shows. |
| Quote.DoesNotRepayExactlyWhen | packages/money/src/quote.ts:73-77 | The "do not repay" refusal happens exactly when interest and deductions together are negative. |
| Quote.SaneQuotesRepay | packages/money/src/quote.ts:55-92 | With nonnegative fee settings and rows it cannot happen. |
| Quote.DeductingNeverLooksCheaper | packages/money/src/quote.ts:70-92 | Deducting the charges never discloses a lower APR than collecting them separately, at the same cost of credit. |
| Quote.DeductedChargesRaiseQuotedApr | packages/money/src/quote.ts:49-92 | Charges deducted beyond half a paisa a month put the quoted rate strictly above the contract rate. |
| Allocation.AllocateRepayment | packages/money/src/allocation.ts:26-68 | The loop with its early break returns what the laws below are about, and never reaches its invariant throw. |
| Allocation.AllocatedExactlyWhen | packages/money/src/allocation.ts:26-68 | The returned value is the one allocation in which the first k buckets of the order take the receipt up to the sum of their dues, for every k, and the rest is overpaid; it is returned exactly for valid receipts. |
| Allocation.AllocatedAddsUp | packages/money/src/allocation.ts:62-67 | The returned shares sum to min(received, total dues) and with the returned overpayment to the receipt. |
| Allocation.AllocatedInOrder | packages/money/src/allocation.ts:55-60 | No returned share is negative or above its due, and none is paid while an earlier due is short. |
| Allocation.AllocationRefusals | packages/money/src/allocation.ts:31-44 | Which refusal is made; among the buckets the first at fault decides. |
| Allocation.FillBuckets | packages/money/src/allocation.ts:46-60 | The break changes nothing: the loop equals the closed form. |
| Allocation.AcceptsExactlyValidOrders | packages/money/src/allocation.ts:31-44 | A receipt is accepted exactly when it and every due are nonnegative and the order lists every bucket once. |
| Allocation.PaymentsAddUp | packages/money/src/allocation.ts:55-60 | The first k buckets together take min(received, their dues), for every k. |
| Allocation.GreatestFeasibleSplit | packages/money/src/allocation.ts:20-60 | The result is the lexicographically greatest split that respects the dues and the receipt. |
| Allocation.EarlierBucketsFirst | packages/money/src/allocation.ts:20-60 | A bucket gets nothing while an earlier one is unpaid in part. |
| Allocation.SumOfAllocation | packages/money/src/allocation.ts:62-67 | Whatever the order, min(received, total dues) is allocated and the rest is returned; together they are the receipt. |
| Allocation.AllocationComposes | packages/money/src/allocation.ts:46-67 | Allocating a, and then b to the dues that the first result leaves, gives every bucket and the overpayment what allocating a + b once gives; all three calls are accepted. |
| Allocation.ReceiptsCompose | packages/money/src/allocation.ts:46-67 | Any number of successive receipts leave the dues and the overpayment that one receipt of their sum leaves. |
| Allocation.DefaultOrderIsValid | packages/money/src/allocation.ts:5-10 | The default order passes the checks. |
| AuthService.Service.EnforceOtpRateLimits | apps/api/src/modules/auth/auth.service.ts:97-118 | Refuses exactly when the window is full or the newest challenge is under 30 seconds old. |
| AuthService.Service.SendOtp | apps/api/src/modules/auth/auth.service.ts:45-95 | In place, creates the user if new, then refuses or appends a challenge: the SendOtp step. |
| AuthService.Service.VerifyOtp | apps/api/src/modules/auth/auth.service.ts:120-222 | In place and all or nothing on success: the VerifyOtp step, in the original's order of refusals. |
| AuthService.Service.Refresh | apps/api/src/modules/auth/auth.service.ts:267-310 | Rotates, or revokes the family on replay: the Refresh step. |
| AuthService.Service.Logout | apps/api/src/modules/auth/auth.service.ts:312-316 | Revokes the user's own session only. |
| AuthService.Service.RevokeDevice | apps/api/src/modules/auth/auth.service.ts:343-348 | Revokes the user's sessions on the device and blocks it. |
| AuthService.Service.CanActivate | apps/api/src/modules/auth/jwt-auth.guard.ts:46-56 | Accepts exactly an unrevoked, unexpired session of the token's subject. |
| AuthSessions.ReachableSessions | apps/api/src/modules/auth/auth.service.ts:232-310 | In every run: token hashes unique, families of one user and device, one rotation chain each, older members used. |
| AuthSessions.ExactlyOneUnused | apps/api/src/modules/auth/auth.service.ts:262-310 | In every run each family has exactly one unused session, its newest. |
| AuthSessions.FamilyIsOneChain | apps/api/src/modules/auth/auth.service.ts:299-309 | rotatedFrom links each member to the one before it in the family. |
| AuthSessions.TokenWorksOnce | apps/api/src/modules/auth/auth.service.ts:262-293 | A token that succeeded once is a detected replay ever after, and that revokes its family. |
| AuthSessions.ReplayKillsFamily | apps/api/src/modules/auth/auth.service.ts:275-293 | A detected replay leaves every existing session of the family revoked. |
| AuthSessions.DeviceRevocationKillsFamilies | apps/api/src/modules/auth/auth.service.ts:343-347 | Revoking a device leaves every session of every family on it revoked. |
| AuthSessions.FrozenForever | apps/api/src/modules/auth/auth.service.ts:275-310 | A family whose live end is revoked, by a logout too, is never extended again in the run. |
| AuthSessions.DeadForever | apps/api/src/modules/auth/jwt-auth.guard.ts:46-52 | A fully revoked family stays so, gains no session, and the guard accepts none of it at any time. |
| AuthSessions.ReplayLocksOut | apps/api/src/modules/auth/auth.service.ts:275-293 | After a replay no session of the family is ever accepted or created again. |
| AuthSessions.DeviceRevocationLocksOut | apps/api/src/modules/auth/auth.service.ts:343-347 | The same after a device revocation. |
| AuthHistory.SessionRevokedExactlyBy | apps/api/src/modules/auth/auth.service.ts:275-347 | In every run a session is revoked exactly when an earlier call was a replay in its family, its user's revocation of its device or its own logout; the row carries the time of such a call. |
| AuthDecisions.CodeSentExactlyWhen | apps/api/src/modules/auth/auth.service.ts:97-118 | In every run a code is sent exactly when fewer than 5 calls sent one to the number in the last 15 minutes and none in the last 30 seconds. |
| AuthDecisions.RefreshAnswers | apps/api/src/modules/auth/auth.service.ts:267-309 | In every run the row of the presented token decides: a replay if used or revoked, refused if out of date, else rotated unless the new token repeats one. |
| AuthDecisions.UnknownTokenIsRefused | apps/api/src/modules/auth/auth.service.ts:269-273 | A token that was never issued is refused and changes nothing. |
| AuthDecisions.GuardAcceptsExactlyWhen | apps/api/src/modules/auth/jwt-auth.guard.ts:46-52 | In every run the guard accepts exactly a session of the token's own subject, issued no longer ago than the lifetime and revoked by no call since. |
| AuthDecisions.DeviceBlockedExactlyBy | apps/api/src/modules/auth/auth.service.ts:343-348 | In every run a device is blocked exactly when its owner has revoked it. |
| AuthDecisions.UserActiveExactlyWhen | apps/api/src/modules/auth/auth.service.ts:167-170 | In every run a user is active exactly when someone has signed in with its number, and pending until then. |
| AuthDecisions.UserExistsExactlyWhen | apps/api/src/modules/auth/auth.service.ts:46-64 | In every run a number has a user exactly when a code was requested for it, and never two. |
| AuthHistory.SessionsCountSuccesses | apps/api/src/modules/auth/auth.service.ts:243-254 | In every run there are as many session rows as successful sign-ins and refreshes. |
| AuthHistory.FamilyStartsWithSignIn | apps/api/src/modules/auth/auth.service.ts:164-309 | Every session of every run descends from a sign-in that opened its family, for its user and on its device. |
| AuthHistory.SessionStartsWithSentCode | apps/api/src/modules/auth/auth.service.ts:45-309 | End to end: behind every session is a code that was sent to its user's number and answered in time. |
| AuthSessions.ReachableOwnDevices | apps/api/src/modules/auth/auth.service.ts:172-196 | In every run a session's device belongs to the session's user. |
| AuthOtp.ReachableChallenges | apps/api/src/modules/auth/auth.service.ts:97-162 | In every run: challenges in order and 30 seconds apart, attempts equal to the recorded wrong codes, each within its challenge's life. |
| AuthOtp.LatestIsNewest | apps/api/src/modules/auth/auth.service.ts:101 | Ordering by creation time has one possible first row, so the query is unambiguous. |
| AuthOtp.LatestOpenIsNewest | apps/api/src/modules/auth/auth.service.ts:131-134 | The same for the newest unconsumed challenge. |
| AuthOtp.WindowHoldsFive | apps/api/src/modules/auth/auth.service.ts:97-110 | Admission one challenge at a time bounds every window, wherever it is laid. |
| AuthOtp.AtMostFiveChallengesPerWindow | apps/api/src/modules/auth/auth.service.ts:97-110 | In every run any closed 15-minute window holds at most 5 challenges of a user. |
| AuthGuesses.VerificationAnswers | apps/api/src/modules/auth/auth.service.ts:120-176 | Each answer to a verification against the newest open challenge, with its 5 minutes and 5 attempts, and what it writes: a wrong code is counted and recorded, and nothing else changes. |
| AuthGuesses.NothingToVerify | apps/api/src/modules/auth/auth.service.ts:126-136 | Without an open challenge the code is invalid and nothing changes. |
| AuthGuesses.RightCodeSignsIn | apps/api/src/modules/auth/auth.service.ts:132-196 | In every run the code that was sent signs in while its challenge can be answered, unless the drawn token repeats one. |
| AuthGuesses.GuessesAreCounted | apps/api/src/modules/auth/auth.service.ts:140-162 | In every run the calls that guessed a challenge wrong, counted over the calls and the code sent, are exactly its stored attempts and its recorded wrong codes. |
| AuthGuesses.AtMostFiveGuesses | apps/api/src/modules/auth/auth.service.ts:140-162 | So a code is guessed wrong at most 5 times, and after the fifth every verification is refused as exhausted. |
| AuthGuesses.AtMostTwentyFiveGuesses | apps/api/src/modules/auth/auth.service.ts:97-162 | In every run any closed 10-minute window holds at most 25 calls that guess a user's codes wrong. |
| AuthHistory.SignInAnswersSentCode | apps/api/src/modules/auth/auth.service.ts:66-166 | In every run a sign-in answers, with the same code, a challenge sent to that number at most five minutes before, after fewer than five calls that guessed it wrong. |
| AuthOtp.ChallengeSucceedsOnce | apps/api/src/modules/auth/auth.service.ts:132-166 | In every run a challenge signs its user in at most once. |
| Idempotency.IdempotencyService.Create | apps/api/src/common/idempotency.service.ts:36-47 | The insert wins exactly when the key has no row, and otherwise changes nothing. |
| Idempotency.IdempotencyService.Begin | apps/api/src/common/idempotency.service.ts:27-73 | Run alone, the insert and the lookup give the four outcomes and never miss the row. |
| Idempotency.IdempotencyService.Complete | apps/api/src/common/idempotency.service.ts:75-85 | Marks the row completed with status and body, an absent body as null. |
| Idempotency.IdempotencyService.Release | apps/api/src/common/idempotency.service.ts:88-90 | Deletes the row only while it is in flight. |
| Idempotency.StepKeepsOk | apps/api/src/common/idempotency.interceptor.ts:46-66 | Each database operation of any request, in any order, keeps the ownership invariant. |
| Idempotency.ExactlyOneOwner | apps/api/src/common/idempotency.service.ts:27-47 | Under every interleaving an in-flight row has exactly one unfinished owner, and no key has two holders. |
| Idempotency.SuccessIsFinal | apps/api/src/common/idempotency.interceptor.ts:55-64 | A request whose handler returned keeps its result. |
| Idempotency.AtMostOneSuccess | apps/api/src/common/idempotency.service.ts:27-50 | At most one execution per key ever ends in success, at whatever points of the run. |
| Idempotency.CompletedIsFinal | apps/api/src/common/idempotency.service.ts:75-90 | A completed row never changes or disappears. |
| Idempotency.ReplaysReturnTheExecution | apps/api/src/common/idempotency.service.ts:54-72 | Every replay carries the status and body of that one execution, to a request with its endpoint and body hash. |
| Idempotency.CompletionsLand | apps/api/src/common/idempotency.service.ts:75-85 | The update always finds its row, and no replay falls back on the default status. |
| Idempotency.FailureFreesKey | apps/api/src/common/idempotency.service.ts:87-90 | A failed execution frees its key. |
| Idempotency.LookupMissesExactlyWhen | apps/api/src/common/idempotency.service.ts:36-52 | The lookup throws for a missing row exactly when, after the insert this request lost, an execution under the key failed and released it and no insert has won it since. |
| Idempotency.LookupAnswers | apps/api/src/common/idempotency.service.ts:54-72 | In every run a request that lost its insert is answered by the holder of its key: refused if endpoint or body differ, replayed with its status and body once it succeeded, else told to wait. |
| Idempotency.InsertWinsExactlyWhen | apps/api/src/common/idempotency.service.ts:36-50 | In every run an insert wins, and the handler runs, exactly when nobody holds the key. |
| Idempotency.HashDecidesJson | apps/api/src/common/idempotency.service.ts:23-25 | Two bodies hash alike exactly when they serialise alike, an absent one as null. |
| Idempotency.KeyRequiredExactlyWhen | apps/api/src/common/idempotency.interceptor.ts:34-42 | In every run a request is refused for its key exactly when that is not 8 to 128 characters long. |
| Idempotency.OperationsTouchOneKey | apps/api/src/common/idempotency.service.ts:36-90 | No operation touches another key's row; an insert leaves a taken key and a release a completed row as they are. |

## Left out

- ContractRate.FeesRaiseAprExactlyWhen: row totals must not be negative; a loan so small that its last instalment is negative has a present value that is not monotone, and then the result depends on every midpoint the bisection visits.
- ScheduleLaws.NeverOverCollectsExactlyWhen: for reducing loans at a positive rate the condition is the last row's own opening balance, which has no closed form under rounding and cannot be checked before the call; the closed form in `LargeReducingLoansNeverOverCollect` is only sufficient.
- AprLaws.AtMostOneRoot: uniqueness and location of a root, not its existence, which needs an intermediate value theorem over the reals.
- Calendar.AddMonths: dates without a time of day, which the code discards (every due date is midnight UTC), and no limit on the range of years.
- AuthService.Service.VerifyOtp: not the interleaving of two calls between the read of the challenge and the transaction, nor that of two refreshes; the bounds are for serialised calls.
- AuthService.Service.CanActivate: signature and expiry of the access token are checked by the JWT library before this point and are not modelled; nor are public routes.
- Idempotency.IdempotencyService.Begin: the user id, expiry and timestamps stored in a row are not read by the protocol and are not modelled; expiry is written but no code deletes expired rows.
- Idempotency.CompletionsLand: database failures and lost connections during the completing or releasing write.
- `effectiveAnnualPercent`: display of an already computed rate.
- The 34-digit precision of `Decimal`, its infinities, NaN and signed zero as inputs, and its parsing and printing.
- A second currency: `assertSame` cannot fail with INR alone.
- `min`, `max`, `negate`, comparisons and string forms of `Money` beyond their use above.
- Device model and version fields, user agents, IP hashes, OTP purpose, SMS delivery, audit and outbox rows other than the record of a wrong code.
- `listDevices`, which only reads.
- AES-GCM, HMAC, scrypt and token generation.
- Consent and KYC: append-only records whose remaining claims are about single guards.
- Controllers, DTO validation, exception filter, health probes, seeding and configuration.
