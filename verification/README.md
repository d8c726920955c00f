# Loan amortization schedules

The loan calculator takes a principal, a term in months, an annual rate in percent, a grace period and a list of
repayment events, and builds one monthly schedule for each of three repayment methods:

- equal installments (원리금균등);
- equal principal (원금균등);
- bullet payment (만기일시).

A repayment event for month `round` can prepay an `amount`, change the rate to `newRate`, or do both. The server action also
estimates how much interest refinancing the equal-installments loan after month 12 would save.

The model is split into these modules:

- `Wrappers`: `Option` and `Result`.
- `LoanLogic`: the entities (`LoanData`, `RepaymentEvent`, `ScheduleEntry`, `CalculationResult`) and the validation schema (`SafeParse`). It also holds:
  - the round-ordered sort and the first-match lookup of events;
  - the ledger that all three calculators post to, and the bookkeeping invariant they share.
- `EqualInstallments`, `EqualPrincipal`, `BulletPayment`: each calculator is modelled twice.
  - **`Calculate`:** a method with the source's `for` loop.
  - **`Run(d, k)`:** a recursive specification of the ledger after `k` months.
  - `Calculate` is proved to return `ScheduleOf(d)`, and the properties of the schedules are lemmas about `Run`.
- `Actions`:
  - the refinance estimate;
  - the loop that turns the form's repayment rows into events;
  - the assembly of the three results, the rate and the estimate.

Numbers are exact reals. `parseFloat`/`parseInt` results are `Parsed.Number(x)`, and a parse failure is `Parsed.NaN`.
Form money fields are in units of 10,000 won and are scaled by `WonPerFormUnit`.

These behaviours of the code are modelled as written:

- A month's prepayment is subtracted before that month's interest is computed.
- The interest of the month uses the rate in force before that month's event.
- A new rate takes effect in the same month for the equal-installments instalment, and from the next month for interest.
- Only the first event of a month, in round order, applies, and events past the term never apply.
- The internal balance may go negative (a prepayment larger than the balance), while the reported `remainingPrincipal` is clamped at 0.
- Equal principal divides the principal by `loanTermMonths - gracePeriodMonths`.
- In equal principal, any event resets the share to the balance over all the months left, grace months included.
  When the last event in the term falls after the grace period and leaves a balance of at least 0, the loan ends at 0 (`RepaidAfterLastEvent`). When the last event falls in the grace period, part of the loan can be left unpaid at maturity (`GraceEventLeavesBalance`).
- The validator does not require `gracePeriodMonths <= loanTermMonths` or `round <= loanTermMonths`.
- The schedule is never rounded per month.
- Nothing caps a prepayment at the balance or forces the final month to clear it.

The model follows the code on each of these points.

## Model

| member | source | states |
|---|---|---|
| LoanLogic.SafeParse | app/lib/loanLogic.ts:6-16 | The request is accepted iff no field fails. An accepted request carries exactly the parsed numbers and events. A refused one reports a non-empty set of failing fields. |
| LoanLogic.SchemaAcceptsExactly | app/lib/loanLogic.ts:6-16 | Acceptance holds iff every number parsed and the data meet the rules: principal, term and rate positive; term and grace integers; grace at least 0; each event's round, amount and new rate positive. |
| LoanLogic.InsertKeepsEvents | app/lib/loanLogic.ts:51 | Inserting an event by round keeps every event (multiset). |
| LoanLogic.InsertKeepsSorted | app/lib/loanLogic.ts:51 | Inserting into a round-ordered list keeps it ordered. |
| LoanLogic.SortByRoundSorts | app/lib/loanLogic.ts:51 | The sort by round is a permutation of the events and is ordered by round. |
| LoanLogic.FirstOfRound | app/lib/loanLogic.ts:63 | `find` stops at the first event whose round is the month. No earlier event has that round. |
| LoanLogic.InsertKeepsLookup | app/lib/loanLogic.ts:51-63 | After an insertion, looking up a month finds the inserted event when its round matches. Otherwise it finds what it found before. |
| LoanLogic.SortKeepsLookup | app/lib/loanLogic.ts:51-63 | Looking up a month in the stably sorted list finds the same event as in the submitted list: the first event of that round. |
| LoanLogic.ScheduledEventFacts | app/lib/loanLogic.ts:63 | A found event is one of the loan's events and has that round. None is found iff no event has that round. A found event of a valid loan is valid. |
| LoanLogic.RateAfter | app/lib/loanLogic.ts:66 | A valid event keeps the current rate positive when it replaces it. |
| LoanLogic.NoScheduledEvent | app/lib/loanLogic.ts:63 | When no event lies within the term, no month of the term finds one. |
| LoanLogic.PrepaidNothing | app/lib/loanLogic.ts:65 | Without events in the term, nothing is prepaid. |
| LoanLogic.EventsWithin | app/lib/loanLogic.ts:59-63 | Keeping only the events of rounds 1..n keeps only events of the loan. |
| LoanLogic.EventsWithinLookup | app/lib/loanLogic.ts:59-63 | Dropping events past the term changes no lookup within the term. |
| LoanLogic.DropLateEvents | app/lib/loanLogic.ts:59-63 | A loan without its late events is the same within the term, and still valid. |
| LoanLogic.SumsAppend | app/lib/loanLogic.ts:84 | Posting an entry adds its interest and its principal to the column sums. |
| LoanLogic.OpeningBooks | app/lib/loanLogic.ts:47-50 | The opening ledger has the whole principal owed, an empty schedule and no interest. |
| LoanLogic.PostBooks | app/lib/loanLogic.ts:83-85 | Posting a month preserves the books. Months are numbered from 1, reported balances are at least 0, each total is principal plus interest, and totalInterest is the interest column's sum. The balance is the principal less prepayments and repaid principal. |
| LoanLogic.FinishWellFormed | app/lib/loanLogic.ts:88-89 | A finished ledger gives one entry per month, with totalInterest the sum of the interest column and totalPaid = principal + totalInterest. |
| EqualInstallments.PowAboveOne | app/lib/loanLogic.ts:56 | (1 + i)^n > 1 for i > 0 and n >= 1, so the instalment's divisor is positive. |
| EqualInstallments.MonthlyPayment | app/lib/loanLogic.ts:53-57 | The instalment is 0 when n <= 0. |
| EqualInstallments.LastInstalment | app/lib/loanLogic.ts:53-57 | Over one month the instalment is the balance plus its interest. |
| EqualInstallments.InstalmentAboveInterest | app/lib/loanLogic.ts:53-57 | The instalment of a positive balance exceeds its monthly interest. |
| EqualInstallments.InstalmentFalls | app/lib/loanLogic.ts:53-57 | A smaller balance has a strictly smaller instalment at the same rate over the same months. |
| EqualInstallments.AnnuityStep | app/lib/loanLogic.ts:53-57 | Paying the n-month instalment leaves a balance whose (n-1)-month instalment is the same amount. |
| EqualInstallments.Month | app/lib/loanLogic.ts:60-85 | One pass of the loop body. Its own contract says only that the rate stays positive and one entry is added; what the month posts is stated by MonthEntry. |
| EqualInstallments.Run | app/lib/loanLogic.ts:59-86 | The ledger after k months. Its own contract says only that the rate stays positive and there are k entries; the books are RunBooks and each entry is MonthEntry. |
| EqualInstallments.Calculate | app/lib/loanLogic.ts:46-90 | The loop returns the specified schedule `ScheduleOf(d)`. |
| EqualInstallments.RunBooks | app/lib/loanLogic.ts:59-86 | Every month keeps the books (see PostBooks). |
| EqualInstallments.ScheduleShape | app/lib/loanLogic.ts:46-90 | The result has `loanTermMonths` entries numbered 1.., remaining >= 0, total = principal + interest, totalInterest = sum of interest, and totalPaid = principal + totalInterest. |
| EqualInstallments.RunPrefix | app/lib/loanLogic.ts:85 | The schedule only grows: the first j months never change later. |
| EqualInstallments.MonthEntry | app/lib/loanLogic.ts:59-86 | Entry m: the prepayment applies before interest, and the interest uses the pre-event rate. A grace month pays interest only. A later month pays the instalment of the post-event balance over the months left, at the post-event rate. The reported balance is clamped. |
| EqualInstallments.FinalBalance | app/lib/loanLogic.ts:77-83 | For a grace period shorter than the term: the balance left after the last month equals the interest on the last balance at the old rate minus that at the new rate. |
| EqualInstallments.RepaidAtMaturity | app/lib/loanLogic.ts:59-86 | For a grace period shorter than the term, when the last month's event does not change the rate, the loan ends at 0. |
| EqualInstallments.LevelState | app/lib/loanLogic.ts:73-83 | Without events and with a grace period shorter than the term, the rate stays and the balance is the principal during grace. Afterwards the instalment over the months left stays that of the principal. |
| EqualInstallments.LevelPayment | app/lib/loanLogic.ts:46-90 | Without events and with a grace period shorter than the term, grace months pay the interest on the principal and no principal. Every later month pays the same instalment, the final balance is 0, and the principal column sums to the principal. |
| EqualInstallments.LevelMonth | app/lib/loanLogic.ts:59-83 | In any loan, a month without an event keeps the rate. In grace it keeps the balance; after grace it keeps the instalment over the months left. |
| EqualInstallments.LevelEntry | app/lib/loanLogic.ts:69-81 | Without events, entry k pays interest only in grace and the principal's instalment after it. |
| EqualInstallments.RunBeforeFirstEvent | app/lib/loanLogic.ts:59-86 | When every event's round is r or later, the ledger of each month before r is that of the same loan without events. |
| EqualInstallments.SameBeforeFirstEvent | app/lib/loanLogic.ts:59-86 | When every event's round is r or later, each entry before month r is that of the same loan without events. |
| EqualInstallments.LevelBeforeFirstEvent | app/lib/loanLogic.ts:69-81 | With a grace period shorter than the term and every event at round r or later, each entry before month r pays interest only on the principal in grace, and the principal's instalment over the months after grace afterwards. |
| EqualInstallments.PrepaymentLowersInstalment | app/lib/loanLogic.ts:63-81 | A prepayment in month m after the grace period that leaves the rate unchanged, with no event in month m - 1, makes month m's instalment strictly smaller than month m - 1's. |
| EqualInstallments.RunWithinTerm | app/lib/loanLogic.ts:59-63 | Loans with the same events within the term have the same ledgers. |
| EqualInstallments.OnlyEventsWithinTermApply | app/lib/loanLogic.ts:59-63 | Events past the term never change the schedule. |
| EqualPrincipal.InitialBasisSplitsPrincipal | app/lib/loanLogic.ts:100-102 | The opening share times the months after grace is the principal. |
| EqualPrincipal.InitialShares | app/lib/loanLogic.ts:100-102 | With a month after the grace period, the opening share is positive and the principal is that many shares. |
| EqualPrincipal.Month | app/lib/loanLogic.ts:105-125 | One pass of the loop body. Its own contract says only that the rate stays positive and one entry is added; what the month posts is stated by MonthEntry. |
| EqualPrincipal.Run | app/lib/loanLogic.ts:104-126 | The ledger after k months. Its own contract says only that the rate stays positive and there are k entries; the books are RunBooks and each entry is MonthEntry. |
| EqualPrincipal.Calculate | app/lib/loanLogic.ts:93-130 | The loop returns the specified schedule `ScheduleOf(d)`. |
| EqualPrincipal.RunBooks | app/lib/loanLogic.ts:104-126 | Every month keeps the books (see PostBooks). |
| EqualPrincipal.ScheduleShape | app/lib/loanLogic.ts:93-130 | The same shape facts as for equal installments. |
| EqualPrincipal.RunPrefix | app/lib/loanLogic.ts:125 | The schedule only grows. |
| EqualPrincipal.MonthEntry | app/lib/loanLogic.ts:104-126 | Entry m: the prepayment applies before interest, at the pre-event rate. Any event resets the share to the post-event balance over the months left, grace included. A grace month repays nothing, and a later month repays min(share, balance). The reported balance is clamped. |
| EqualPrincipal.LevelState | app/lib/loanLogic.ts:104-126 | Without events and with a month after the grace period, rate and share stay, and the balance is the principal during grace. Afterwards it is one share times the months left. |
| EqualPrincipal.LevelPrincipal | app/lib/loanLogic.ts:93-130 | Without events, grace months repay 0 and later months repay principal / (term - grace). The final balance is 0, and the interest never rises from one month to the next. |
| EqualPrincipal.LevelEntry | app/lib/loanLogic.ts:115-120 | Without events and with a month after the grace period, entry k repays 0 in grace and one share after it. Its interest is on the balance left. |
| EqualPrincipal.BalanceFalls | app/lib/loanLogic.ts:123 | Without events and with a month after the grace period, the balance never rises. |
| EqualPrincipal.OverPrepaymentRegrows | app/lib/loanLogic.ts:108-125 | Prepaying 130 on a 3-month loan of 100 gives principal payments -30 and -10, and reported balances 0, 10 and 20. |
| EqualPrincipal.LastEventMonth | app/lib/loanLogic.ts:107-123 | The month m of an event after grace that leaves a balance of at least 0 sets the share to that balance over the months left and repays one share. |
| EqualPrincipal.ShareRepaid | app/lib/loanLogic.ts:115-123 | A month after grace without an event, owing j + 1 shares, repays one share and keeps the share. |
| EqualPrincipal.AfterLastEvent | app/lib/loanLogic.ts:104-126 | From the last event in the term, at a month after grace leaving a balance of at least 0, the share stays the one that event set and the balance is that share times the months still to come. |
| EqualPrincipal.RepaidAfterLastEvent | app/lib/loanLogic.ts:93-130 | A loan whose last event in the term falls after grace and leaves a balance of at least 0 ends at 0. |
| EqualPrincipal.GraceEventLeavesBalance | app/lib/loanLogic.ts:108-123 | A rate change in the one grace month of a 3-month loan of 300 resets the share to 100, so months 2 and 3 repay 100 each and 100 is still owed at maturity. |
| EqualPrincipal.GraceCoversTerm | app/lib/loanLogic.ts:100-120 | When grace covers the term, no month repays principal, so the opening share is never used. |
| EqualPrincipal.RunWithinTerm | app/lib/loanLogic.ts:104-113 | Loans with the same events within the term have the same ledgers. |
| EqualPrincipal.OnlyEventsWithinTermApply | app/lib/loanLogic.ts:104-113 | Events past the term never change the schedule. |
| BulletPayment.Month | app/lib/loanLogic.ts:141-162 | One pass of the loop body. Its own contract says only that the rate stays positive and one entry is added; what the month posts is stated by MonthEntry. |
| BulletPayment.Run | app/lib/loanLogic.ts:140-163 | The ledger after k months. Its own contract says only that the rate stays positive and there are k entries; the books are RunBooks and each entry is MonthEntry. |
| BulletPayment.Calculate | app/lib/loanLogic.ts:133-167 | The loop returns the specified schedule `ScheduleOf(d)`. |
| BulletPayment.RunBooks | app/lib/loanLogic.ts:140-163 | Every month keeps the books (see PostBooks). |
| BulletPayment.ScheduleShape | app/lib/loanLogic.ts:133-167 | The same shape facts as for equal installments. |
| BulletPayment.RunPrefix | app/lib/loanLogic.ts:162 | The schedule only grows. |
| BulletPayment.MonthEntry | app/lib/loanLogic.ts:140-163 | Entry m: the prepayment applies before interest, at the pre-event rate. Months before the last repay nothing and keep the balance. The last month repays all of it and leaves 0. |
| BulletPayment.RepaidAtMaturity | app/lib/loanLogic.ts:152-160 | Whatever the events, the loan ends at 0, and the principal column is the principal less prepayments. |
| BulletPayment.LevelState | app/lib/loanLogic.ts:140-163 | Without events, the rate and the balance stay the opening ones until the last month. |
| BulletPayment.LevelInterest | app/lib/loanLogic.ts:133-167 | Without events, every month's interest is the interest on the principal. Only the last month repays principal, all of it, and totalInterest is the monthly interest times the term. |
| BulletPayment.LevelEntry | app/lib/loanLogic.ts:149-154 | Without events, entry k charges interest on the principal and repays principal only in the last month. |
| BulletPayment.RunIgnoresGrace | app/lib/loanLogic.ts:140-163 | The ledger does not depend on the grace period. |
| BulletPayment.GraceIgnored | app/lib/loanLogic.ts:133-167 | The schedule is the same with and without the grace period. |
| BulletPayment.RunWithinTerm | app/lib/loanLogic.ts:140-147 | Loans with the same events within the term have the same ledgers. |
| BulletPayment.OnlyEventsWithinTermApply | app/lib/loanLogic.ts:140-147 | Events past the term never change the schedule. |
| Actions.Round | app/lib/actions.ts:44-46 | `Math.round` gives the integer within half of x, with halves rounded up. |
| Actions.RefinanceSavings | app/lib/actions.ts:13-48 | No estimate when the rate is at most 3.8, the term is at most 12 or the schedule has at most 12 entries. An estimate implies those guards passed, a positive balance after month 12, and non-negative rounded savings. |
| Actions.RefinanceRateLower | app/lib/actions.ts:21-22 | Past the rate guard, the new rate max(3.8, rate - 1) is at least 3.8 and strictly below the rate, so the second guard never fires. |
| Actions.RefinanceEstimateFacts | app/lib/actions.ts:24-46 | The refinanced loan has the month-12 balance, the new rate, the term less 12, no grace and no events; it is valid and ends fully repaid. An estimate is given iff original interest minus (the first 12 months' interest plus the new loan's total interest) is positive, and its figures are those amounts rounded. |
| Actions.EventOf | app/lib/actions.ts:68-78 | An entry's event comes from a round entry with an index and keeps its round, which is not 0. It carries a positive amount or a new rate of at least 0, and at least one of the two. |
| Actions.CollectRepayments | app/lib/actions.ts:59-81 | The loop over the form entries returns the events the filter keeps, in form order. |
| Actions.CollectedEventsShape | app/lib/actions.ts:68-78 | Every collected event has a non-zero round and an amount or a new rate. An amount is positive, and a new rate is at least 0. |
| Actions.FilterRule | app/lib/actions.ts:61-78 | An entry yields an event iff it is a round entry with a non-empty index, a non-zero round, and a positive amount or a new rate at least 0. The amount is scaled by 10,000. |
| Actions.FilterThenSchema | app/lib/actions.ts:68-78 | The collected events pass the schema iff none has a negative round or a new rate of 0. |
| Actions.SchemaRefusesZeroRate | app/lib/loanLogic.ts:11-15 | A collected event with a new rate of 0 makes the schema refuse the request on `repayments`. |
| Actions.CollectedHasEvent | app/lib/actions.ts:60-81 | Every event an entry yields is among the collected events. |
| Actions.ZeroRateRejected | app/lib/actions.ts:73-77 | A round entry with an index, a non-zero round and a new rate of 0 passes the filter as an event with new rate 0, and the schema then refuses the request on `repayments`. |
| Actions.CalculateAllLoanScenarios | app/lib/actions.ts:52-106 | Field errors come back iff the schema refuses the scaled request. Otherwise the result holds the three schedules of the validated data and its rate, and a refinance estimate exactly when one is computed from the equal-installments schedule. |

## Left out

- The user interface and the reading of `FormData`: the fields arrive already parsed (a number, NaN, or absent). The `repaymentAmount_<index>` and `newRate_<index>` lookups are resolved into each round entry.
- `parseFloat`/`parseInt` string handling: the empty-string checks (`amountValue &&`, the grace field's presence) are folded into the optional fields.
- zod's messages and `flatten()`: an error is the set of failing fields. The `_form` messages of the `catch` block are left out, because computing on exact reals raises no exception.
- IEEE-754 arithmetic: all amounts are exact reals, so rounding drift, overflow, Infinity and NaN inside the calculators are not modelled. `Math.pow` is exact repeated multiplication.
- EqualPrincipal.InitialBasis: when the grace period equals the term the source divides by zero and gets Infinity. 0 stands in for that value. No month after the grace period exists then, so it is never used (`GraceCoversTerm`).
- Actions.Round: `Math.round` is `floor(x + 0.5)` on exact reals, and JavaScript's `-0` is 0.
- `console.error`, the `try`/`catch` block, `async` and the unused `prevState` parameter are left out.
- `gracePeriodMonths` and `repayments` are optional in the schema, but the action always supplies both. `LoanData` therefore always carries them, and the `?? 0` and `|| []` defaults are not modelled separately.
- The calculators and `LoanSchema` are not exported from loanLogic.ts, yet actions.ts imports them. The model treats them as exported.
- The second copy of `calculateAllLoanScenarios` at app/lib/loanLogic.ts:172-217 is not part of this model; actions.ts's version is the one modelled.
- EqualInstallments.RepaidAtMaturity: stated only when the last month's event leaves the rate unchanged, and only for a grace period shorter than the term. The general final balance is `FinalBalance`.
- EqualInstallments.LevelPayment: level instalments are stated for loans without events in the term and with a grace period shorter than the term. With events, the months before the first event are `LevelBeforeFirstEvent`, and every month is described by `MonthEntry`.
- EqualInstallments.PrepaymentLowersInstalment: compares the instalments just before and after the prepayment. That a prepayment lowers `totalInterest` compared with the same loan without it is not proved: that compares two whole schedules whose balances differ in every later month.
- EqualInstallments.FinalBalance: stated only for a grace period shorter than the term. With no month after the grace period, no instalment is paid and the whole balance is left.
- EqualInstallments.LevelState: stated only for a grace period shorter than the term.
- EqualPrincipal.LevelPrincipal: stated only for loans without events in the term, and with a month after the grace period.
- EqualPrincipal.RepaidAfterLastEvent: stated only when the last event in the term falls after the grace period and leaves a balance of at least 0. An event in the grace period can leave part of the loan unpaid (`GraceEventLeavesBalance`), and a larger prepayment makes the balance regrow (`OverPrepaymentRegrows`).
- BulletPayment.LevelInterest: stated only for loans without events in the term.
