/**
 * Equal principal (calculateEqualPrincipal): after the grace months every month repays the
 * same share of principal, `principalPaymentPerMonth`, capped at the balance; any event found
 * for a month recomputes that share as the post-event balance over the months left.
 */
module EqualPrincipal {
  import opened Wrappers
  import opened LoanLogic

  /** An equal share of `balance` over `months` months. */
  function Share(balance: real, months: int): real
    requires months != 0
  {
    balance / months as real
  }

  /**
   * The opening `principalPaymentPerMonth`: the principal over the months after the grace
   * period (over the whole term when there is no grace period). When the grace period covers
   * the whole term the source divides by zero; no month after the grace period exists then,
   * so the value is never used and 0 stands in for it.
   */
  function InitialBasis(d: LoanData): real {
    if d.gracePeriodMonths != 0 then
      if d.loanTermMonths - d.gracePeriodMonths != 0
      then Share(d.principal, d.loanTermMonths - d.gracePeriodMonths)
      else 0.0
    else
      if d.loanTermMonths != 0 then Share(d.principal, d.loanTermMonths) else 0.0
  }

  /** The opening share times the months after the grace period is the principal. */
  lemma InitialBasisSplitsPrincipal(d: LoanData)
    requires d.gracePeriodMonths != d.loanTermMonths
    ensures InitialBasis(d) * (d.loanTermMonths - d.gracePeriodMonths) as real == d.principal
  {
  }

  /**
   * One pass of the loop body for `month`: the event's prepayment lowers the balance, any
   * event found resets the share to the post-event balance over the months left (grace months
   * included), interest is charged at the rate in force before the event, and after the grace
   * months the share, capped at the balance, is repaid.
   */
  function Month(d: LoanData, s: Ledger, month: nat): (t: Ledger)
    requires Valid(d) && 1 <= month <= d.loanTermMonths && s.rate > 0.0
    ensures t.rate > 0.0 && |t.schedule| == |s.schedule| + 1
  {
    var event := ScheduledEvent(d, month);
    ScheduledEventFacts(d, month);
    var balance := s.balance - Prepayment(event);
    var rate := RateAfter(event, s.rate);
    var basis := if event.Some? then Share(balance, d.loanTermMonths - month + 1) else s.basis;
    var interest := Interest(balance, s.rate);
    var principal := if month > d.gracePeriodMonths then Min(basis, balance) else 0.0;
    Post(s, month, balance, rate, basis, principal, interest)
  }

  /** The ledger after the first k months. */
  function Run(d: LoanData, k: nat): (s: Ledger)
    requires Valid(d) && k <= d.loanTermMonths
    ensures s.rate > 0.0 && |s.schedule| == k
  {
    if k == 0 then Opening(d, InitialBasis(d)) else Month(d, Run(d, k - 1), k)
  }

  /** The result calculateEqualPrincipal returns. */
  function ScheduleOf(d: LoanData): CalculationResult
    requires Valid(d)
  {
    Finish(d, Run(d, d.loanTermMonths))
  }

  /** calculateEqualPrincipal. */
  method Calculate(d: LoanData) returns (res: CalculationResult)
    requires Valid(d)
    ensures res == ScheduleOf(d)
  {
    var remainingPrincipal := d.principal;
    var currentAnnualRate := d.annualRate;
    var totalInterest := 0.0;
    var schedule: seq<ScheduleEntry> := [];
    var repayments := SortByRound(d.repayments);
    var principalPaymentPerMonth := InitialBasis(d);
    for month := 1 to d.loanTermMonths + 1
      invariant Ledger(remainingPrincipal, currentAnnualRate, totalInterest, principalPaymentPerMonth, schedule)
        == Run(d, month - 1)
    {
      ghost var before := Run(d, month - 1);
      assert remainingPrincipal == before.balance && currentAnnualRate == before.rate
        && principalPaymentPerMonth == before.basis;
      var monthlyRate := MonthlyRate(currentAnnualRate);
      var event := EventAt(repayments, month);
      SortKeepsLookup(d.repayments, month);
      ScheduledEventFacts(d, month);
      assert event == ScheduledEvent(d, month);
      if event.Some? {
        if Truthy(event.value.amount) {
          remainingPrincipal := remainingPrincipal - event.value.amount.value;
        }
        if Truthy(event.value.newRate) {
          currentAnnualRate := event.value.newRate.value;
        }
        principalPaymentPerMonth := Share(remainingPrincipal, d.loanTermMonths - month + 1);
      }
      var interestPayment := remainingPrincipal * monthlyRate;
      InterestAt(remainingPrincipal, monthlyRate, before.rate);
      var principalPayment := 0.0;
      if month > d.gracePeriodMonths {
        principalPayment := Min(principalPaymentPerMonth, remainingPrincipal);
      }
      var totalPayment := principalPayment + interestPayment;
      RunStep(d, month, remainingPrincipal, currentAnnualRate, principalPaymentPerMonth,
              principalPayment, interestPayment);
      remainingPrincipal := remainingPrincipal - principalPayment;
      totalInterest := totalInterest + interestPayment;
      schedule := schedule + [ScheduleEntry(month, principalPayment, interestPayment, totalPayment,
                                            Max(0.0, remainingPrincipal))];
    }
    res := CalculationResult(totalInterest, d.principal + totalInterest, schedule);
  }

  /** Month k posts the values the loop body computes from the ledger of month k - 1. */
  lemma RunStep(d: LoanData, k: nat, balance: real, rate: real, basis: real, principal: real, interest: real)
    requires Valid(d) && 1 <= k <= d.loanTermMonths
    requires var s := Run(d, k - 1);
      var event := ScheduledEvent(d, k);
      && balance == s.balance - Prepayment(event)
      && rate == RateAfter(event, s.rate)
      && basis == (if event.Some? then Share(balance, d.loanTermMonths - k + 1) else s.basis)
      && interest == Interest(balance, s.rate)
      && principal == if k > d.gracePeriodMonths then Min(basis, balance) else 0.0
    ensures var s := Run(d, k - 1);
      Run(d, k) == Ledger(balance - principal, rate, s.totalInterest + interest, basis,
                          s.schedule + [ScheduleEntry(k, principal, interest, principal + interest,
                                                      Max(0.0, balance - principal))])
  {
  }

  /** Posting month k keeps the books. */
  lemma StepBooks(d: LoanData, k: nat)
    requires Valid(d) && 1 <= k <= d.loanTermMonths && Books(d, Run(d, k - 1), k - 1)
    ensures Books(d, Run(d, k), k)
  {
    var s := Run(d, k - 1);
    var event := ScheduledEvent(d, k);
    var balance := s.balance - Prepayment(event);
    var basis := if event.Some? then Share(balance, d.loanTermMonths - k + 1) else s.basis;
    var principal := if k > d.gracePeriodMonths then Min(basis, balance) else 0.0;
    PostBooks(d, s, k - 1, balance, RateAfter(event, s.rate), basis, principal, Interest(balance, s.rate));
  }

  /** The ledger keeps the books every month. */
  lemma {:induction false} RunBooks(d: LoanData, k: nat)
    requires Valid(d) && k <= d.loanTermMonths
    ensures Books(d, Run(d, k), k)
  {
    if k == 0 {
      OpeningBooks(d, InitialBasis(d));
    } else {
      RunBooks(d, k - 1);
      StepBooks(d, k);
    }
  }

  /**
   * One entry per month numbered from 1, no negative reported balance, every payment split
   * into principal and interest, `totalInterest` the sum of the interest column and
   * `totalPaid = principal + totalInterest`.
   */
  lemma ScheduleShape(d: LoanData)
    requires Valid(d)
    ensures WellFormed(d, ScheduleOf(d))
  {
    RunBooks(d, d.loanTermMonths);
    FinishWellFormed(d, Run(d, d.loanTermMonths));
  }

  lemma {:induction false} RunPrefix(d: LoanData, j: nat, k: nat)
    requires Valid(d) && j <= k <= d.loanTermMonths
    ensures Run(d, j).schedule == Run(d, k).schedule[..j]
    decreases k
  {
    if j < k {
      RunPrefix(d, j, k - 1);
      assert Run(d, k).schedule[..k - 1] == Run(d, k - 1).schedule;
    }
  }

  /**
   * Entry m of the result: the month's prepayment lowers the balance before interest is
   * charged at the rate in force before the event; a month with an event resets the share to
   * the post-event balance over the months left; a grace month repays no principal; a later
   * month repays the share capped at the balance; the reported balance is clamped at 0.
   */
  lemma MonthEntry(d: LoanData, m: nat)
    requires Valid(d) && 1 <= m <= d.loanTermMonths
    ensures
      var s := Run(d, m - 1);
      var event := ScheduledEvent(d, m);
      var balance := s.balance - Prepayment(event);
      var t := Run(d, m);
      var e := ScheduleOf(d).schedule[m - 1];
      && e.month == m
      && e.interestPayment == Interest(balance, s.rate)
      && t.rate == RateAfter(event, s.rate)
      && t.basis == (if event.Some? then Share(balance, d.loanTermMonths - m + 1) else s.basis)
      && e.principalPayment == (if m > d.gracePeriodMonths then Min(t.basis, balance) else 0.0)
      && e.totalPayment == e.principalPayment + e.interestPayment
      && t.balance == balance - e.principalPayment
      && e.remainingPrincipal == Max(0.0, t.balance)
  {
    RunPrefix(d, m, d.loanTermMonths);
  }

  /** What is still owed after repaying all but j shares: j shares. */
  function Owed(share: real, j: nat): real {
    if j == 0 then 0.0 else Owed(share, j - 1) + share
  }

  lemma {:induction false} OwedIsProduct(share: real, j: nat)
    ensures Owed(share, j) == share * j as real
  {
    if j > 0 {
      OwedIsProduct(share, j - 1);
      assert share * j as real == share * (j - 1) as real + share;
    }
  }

  lemma {:induction false} OwedNonNegative(share: real, j: nat)
    requires share >= 0.0
    ensures Owed(share, j) >= 0.0
  {
    if j > 0 {
      OwedNonNegative(share, j - 1);
    }
  }

  /** The opening share is positive and the principal is the shares of the months after grace. */
  lemma InitialShares(d: LoanData)
    requires Valid(d) && d.gracePeriodMonths < d.loanTermMonths
    ensures InitialBasis(d) > 0.0
    ensures Owed(InitialBasis(d), d.loanTermMonths - d.gracePeriodMonths) == d.principal
  {
    var m := d.loanTermMonths - d.gracePeriodMonths;
    InitialBasisSplitsPrincipal(d);
    PositiveQuotient(InitialBasis(d), m as real, d.principal);
    OwedIsProduct(InitialBasis(d), m);
  }

  lemma PositiveQuotient(q: real, m: real, p: real)
    requires m > 0.0 && p > 0.0 && q * m == p
    ensures q > 0.0
  {
    assert q == p / m;
  }

  /** Without events: rate and share unchanged, the principal during grace, then one share less each month. */
  lemma {:induction false} LevelState(d: LoanData, k: nat)
    requires Valid(d) && NoEventWithinTerm(d) && d.gracePeriodMonths < d.loanTermMonths
    requires k <= d.loanTermMonths
    ensures Run(d, k).rate == d.annualRate
    ensures Run(d, k).basis == InitialBasis(d)
    ensures k <= d.gracePeriodMonths ==> Run(d, k).balance == d.principal
    ensures d.gracePeriodMonths <= k ==>
      Run(d, k).balance == Owed(InitialBasis(d), d.loanTermMonths - k)
  {
    var basis := InitialBasis(d);
    var n := d.loanTermMonths;
    var g := d.gracePeriodMonths;
    InitialShares(d);
    if k > 0 {
      LevelState(d, k - 1);
      NoScheduledEvent(d, k);
      MonthEntry(d, k);
      if g <= k - 1 {
        OwedNonNegative(basis, n - k);
      }
    }
  }

  /**
   * Without events in the term and with some month after the grace period: grace months repay
   * no principal, every later month repays `principal / (loanTermMonths - gracePeriodMonths)`,
   * the loan ends fully repaid, and the interest never rises from one month to the next.
   */
  lemma LevelPrincipal(d: LoanData)
    requires Valid(d) && NoEventWithinTerm(d) && d.gracePeriodMonths < d.loanTermMonths
    ensures
      var r := ScheduleOf(d);
      var g := d.gracePeriodMonths;
      var n := d.loanTermMonths;
      && (forall k :: 0 <= k < g ==> r.schedule[k].principalPayment == 0.0)
      && (forall k :: g <= k < n ==> r.schedule[k].principalPayment == d.principal / (n - g) as real)
      && r.schedule[n - 1].remainingPrincipal == 0.0
      && (forall k :: 0 < k < n ==> r.schedule[k].interestPayment <= r.schedule[k - 1].interestPayment)
  {
    var r := ScheduleOf(d);
    var n := d.loanTermMonths;
    forall k | 0 <= k < n
      ensures k < d.gracePeriodMonths ==> r.schedule[k].principalPayment == 0.0
      ensures d.gracePeriodMonths <= k ==> r.schedule[k].principalPayment == d.principal / (n - d.gracePeriodMonths) as real
    {
      LevelEntry(d, k);
    }
    forall k | 0 < k < n
      ensures r.schedule[k].interestPayment <= r.schedule[k - 1].interestPayment
    {
      LevelEntry(d, k);
      LevelEntry(d, k - 1);
      BalanceFalls(d, k);
      InterestFalls(Run(d, k).balance, Run(d, k - 1).balance, d.annualRate);
    }
    LevelState(d, n);
    MonthEntry(d, n);
  }

  /** Entry k without events: no principal in grace, one share after it, interest on the balance left. */
  lemma LevelEntry(d: LoanData, k: nat)
    requires Valid(d) && NoEventWithinTerm(d) && d.gracePeriodMonths < d.loanTermMonths
    requires k < d.loanTermMonths
    ensures var e := ScheduleOf(d).schedule[k];
      && (k < d.gracePeriodMonths ==> e.principalPayment == 0.0)
      && (d.gracePeriodMonths <= k ==>
            e.principalPayment == d.principal / (d.loanTermMonths - d.gracePeriodMonths) as real)
      && e.interestPayment == Interest(Run(d, k).balance, d.annualRate)
  {
    var basis := InitialBasis(d);
    assert basis == d.principal / (d.loanTermMonths - d.gracePeriodMonths) as real;
    InitialShares(d);
    LevelState(d, k);
    NoScheduledEvent(d, k + 1);
    MonthEntry(d, k + 1);
    if d.gracePeriodMonths <= k {
      OwedNonNegative(basis, d.loanTermMonths - k - 1);
    }
  }

  /** Without events the balance never rises from one month to the next. */
  lemma BalanceFalls(d: LoanData, k: nat)
    requires Valid(d) && NoEventWithinTerm(d) && d.gracePeriodMonths < d.loanTermMonths
    requires 0 < k <= d.loanTermMonths
    ensures Run(d, k).balance <= Run(d, k - 1).balance
  {
    InitialShares(d);
    LevelState(d, k);
    LevelState(d, k - 1);
  }

  lemma InterestFalls(lower: real, higher: real, rate: real)
    requires lower <= higher && rate > 0.0
    ensures Interest(lower, rate) <= Interest(higher, rate)
  {
    var monthlyRate := MonthlyRate(rate);
    assert monthlyRate > 0.0;
    assert (higher - lower) * monthlyRate >= 0.0;
    assert Interest(higher, rate) - Interest(lower, rate) == (higher - lower) * monthlyRate;
  }

  /** A month depends on the loan only through its term, grace period and that month's event. */
  lemma MonthWithinTerm(d: LoanData, e: LoanData, s: Ledger, k: nat)
    requires Valid(d) && Valid(e) && SameWithinTerm(d, e) && 1 <= k <= d.loanTermMonths && s.rate > 0.0
    ensures Month(d, s, k) == Month(e, s, k)
  {
    assert ScheduledEvent(d, k) == ScheduledEvent(e, k);
  }

  lemma {:induction false} RunWithinTerm(d: LoanData, e: LoanData, k: nat)
    requires Valid(d) && Valid(e) && SameWithinTerm(d, e) && k <= d.loanTermMonths
    ensures Run(d, k) == Run(e, k)
  {
    if k > 0 {
      RunWithinTerm(d, e, k - 1);
      MonthWithinTerm(d, e, Run(d, k - 1), k);
    }
  }

  /** Only the events of months 1..loanTermMonths affect the schedule; later ones never apply. */
  lemma OnlyEventsWithinTermApply(d: LoanData, e: LoanData)
    requires Valid(d) && Valid(e) && SameWithinTerm(d, e)
    ensures ScheduleOf(d) == ScheduleOf(e)
  {
    RunWithinTerm(d, e, d.loanTermMonths);
  }

  /**
   * A prepayment larger than the balance is taken in full: the balance goes negative, the
   * share is reset to a negative amount, and the later "repayments" are negative, so the
   * reported balance climbs back up from zero. Here 130 is prepaid on a 100 loan over three
   * months at 12%.
   */
  lemma OverPrepaymentRegrows()
    ensures var d := LoanData(100.0, 3, 12.0, 0, [RepaymentEvent(1, Some(130.0), None)]);
      && Valid(d)
      && ScheduleOf(d).schedule[0].principalPayment == -30.0
      && ScheduleOf(d).schedule[0].remainingPrincipal == 0.0
      && ScheduleOf(d).schedule[1].principalPayment == -10.0
      && ScheduleOf(d).schedule[1].remainingPrincipal == 10.0
      && ScheduleOf(d).schedule[2].remainingPrincipal == 20.0
  {
    var e := RepaymentEvent(1, Some(130.0), None);
    var d := LoanData(100.0, 3, 12.0, 0, [e]);
    assert ValidEvent(e);
    assert ScheduledEvent(d, 1) == Some(e);
    assert ScheduledEvent(d, 2) == None;
    assert ScheduledEvent(d, 3) == None;
    assert Run(d, 0) == Opening(d, InitialBasis(d));
    MonthEntry(d, 1);
    assert Share(-30.0, 3) == -10.0;
    assert Run(d, 1).balance == 0.0 && Run(d, 1).basis == -10.0;
    MonthEntry(d, 2);
    assert Run(d, 2).balance == 10.0 && Run(d, 2).basis == -10.0;
    MonthEntry(d, 3);
  }

  /** An equal share of a balance that is not negative: it is at most the balance, and the rest is the other shares. */
  lemma ShareSplits(balance: real, months: int)
    requires balance >= 0.0 && months >= 1
    ensures 0.0 <= Share(balance, months) <= balance
    ensures balance - Share(balance, months) == Owed(Share(balance, months), months - 1)
  {
    var q := Share(balance, months);
    assert q * months as real == balance;
    assert q >= 0.0;
    assert q * months as real >= q * 1.0;
    OwedIsProduct(q, months - 1);
    assert q * months as real == q * (months - 1) as real + q;
  }

  /** The month of the last event sets the share and repays it. */
  lemma LastEventMonth(d: LoanData, m: nat)
    requires Valid(d) && d.gracePeriodMonths < m <= d.loanTermMonths
    requires ScheduledEvent(d, m).Some?
    requires Run(d, m - 1).balance - Prepayment(ScheduledEvent(d, m)) >= 0.0
    ensures var b := Share(Run(d, m - 1).balance - Prepayment(ScheduledEvent(d, m)), d.loanTermMonths - m + 1);
      Run(d, m).basis == b && Run(d, m).balance == Owed(b, d.loanTermMonths - m)
  {
    var balance := Run(d, m - 1).balance - Prepayment(ScheduledEvent(d, m));
    ShareSplits(balance, d.loanTermMonths - m + 1);
    MonthEntry(d, m);
  }

  /** A month after the grace period without an event, with j + 1 shares owed, repays one share. */
  lemma ShareRepaid(d: LoanData, k: nat, b: real)
    requires Valid(d) && d.gracePeriodMonths < k <= d.loanTermMonths && b >= 0.0
    requires ScheduledEvent(d, k).None?
    requires Run(d, k - 1).basis == b && Run(d, k - 1).balance == Owed(b, d.loanTermMonths - k + 1)
    ensures Run(d, k).basis == b && Run(d, k).balance == Owed(b, d.loanTermMonths - k)
  {
    OwedNonNegative(b, d.loanTermMonths - k);
    MonthEntry(d, k);
  }

  /**
   * From the last event in the term, at month m after the grace period and leaving a balance
   * that is not negative, every month repays the share that event set: after month k the share
   * is unchanged and the balance is the shares of the months still to come.
   */
  lemma {:induction false} AfterLastEvent(d: LoanData, m: nat, k: nat)
    requires Valid(d) && d.gracePeriodMonths < m <= k <= d.loanTermMonths
    requires ScheduledEvent(d, m).Some?
    requires forall j :: m < j <= d.loanTermMonths ==> ScheduledEvent(d, j).None?
    requires Run(d, m - 1).balance - Prepayment(ScheduledEvent(d, m)) >= 0.0
    ensures var b := Share(Run(d, m - 1).balance - Prepayment(ScheduledEvent(d, m)), d.loanTermMonths - m + 1);
      Run(d, k).basis == b && Run(d, k).balance == Owed(b, d.loanTermMonths - k)
  {
    var balance := Run(d, m - 1).balance - Prepayment(ScheduledEvent(d, m));
    var b := Share(balance, d.loanTermMonths - m + 1);
    if k == m {
      LastEventMonth(d, m);
    } else {
      AfterLastEvent(d, m, k - 1);
      ShareSplits(balance, d.loanTermMonths - m + 1);
      ShareRepaid(d, k, b);
    }
  }

  /**
   * A loan whose last event in the term falls after the grace period, leaving a balance that
   * is not negative, is repaid in full by its last month.
   */
  lemma RepaidAfterLastEvent(d: LoanData, m: nat)
    requires Valid(d) && d.gracePeriodMonths < m <= d.loanTermMonths
    requires ScheduledEvent(d, m).Some?
    requires forall j :: m < j <= d.loanTermMonths ==> ScheduledEvent(d, j).None?
    requires Run(d, m - 1).balance - Prepayment(ScheduledEvent(d, m)) >= 0.0
    ensures Run(d, d.loanTermMonths).balance == 0.0
    ensures ScheduleOf(d).schedule[d.loanTermMonths - 1].remainingPrincipal == 0.0
  {
    AfterLastEvent(d, m, d.loanTermMonths);
    MonthEntry(d, d.loanTermMonths);
  }

  /**
   * An event in the grace period spreads the balance over the months left, grace months
   * included, but grace months repay nothing, so part of the loan is still owed at maturity.
   * Here a rate change in the first (grace) month of a 300 loan over three months leaves 100.
   */
  lemma GraceEventLeavesBalance()
    ensures var d := LoanData(300.0, 3, 12.0, 1, [RepaymentEvent(1, None, Some(6.0))]);
      && Valid(d)
      && ScheduleOf(d).schedule[0].principalPayment == 0.0
      && ScheduleOf(d).schedule[1].principalPayment == 100.0
      && ScheduleOf(d).schedule[2].principalPayment == 100.0
      && ScheduleOf(d).schedule[2].remainingPrincipal == 100.0
  {
    var e := RepaymentEvent(1, None, Some(6.0));
    var d := LoanData(300.0, 3, 12.0, 1, [e]);
    assert ValidEvent(e);
    assert ScheduledEvent(d, 1) == Some(e);
    assert ScheduledEvent(d, 2) == None;
    assert ScheduledEvent(d, 3) == None;
    assert Run(d, 0) == Opening(d, InitialBasis(d));
    MonthEntry(d, 1);
    assert Share(300.0, 3) == 100.0;
    assert Run(d, 1).balance == 300.0 && Run(d, 1).basis == 100.0;
    MonthEntry(d, 2);
    assert Run(d, 2).balance == 200.0 && Run(d, 2).basis == 100.0;
    MonthEntry(d, 3);
  }

  /**
   * When the grace period covers the whole term no month repays principal, so the opening
   * share (a division by zero or by a negative count in the source) is never used.
   */
  lemma GraceCoversTerm(d: LoanData)
    requires Valid(d) && d.gracePeriodMonths >= d.loanTermMonths
    ensures forall k :: 0 <= k < d.loanTermMonths ==>
      ScheduleOf(d).schedule[k].principalPayment == 0.0
      && ScheduleOf(d).schedule[k].totalPayment == ScheduleOf(d).schedule[k].interestPayment
  {
    forall k | 0 <= k < d.loanTermMonths
      ensures ScheduleOf(d).schedule[k].principalPayment == 0.0
      ensures ScheduleOf(d).schedule[k].totalPayment == ScheduleOf(d).schedule[k].interestPayment
    {
      MonthEntry(d, k + 1);
    }
  }
}
