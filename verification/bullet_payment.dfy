/**
 * Bullet payment (calculateBulletPayment): every month pays interest only and the whole
 * balance is repaid in the last month of the term. The grace period plays no part.
 */
module BulletPayment {
  import opened LoanLogic

  /**
   * One pass of the loop body for `month`: the event's prepayment lowers the balance, interest
   * is charged at the rate in force before the event, and only the last month repays principal,
   * all of the balance left.
   */
  function Month(d: LoanData, s: Ledger, month: nat): (t: Ledger)
    requires Valid(d) && 1 <= month <= d.loanTermMonths && s.rate > 0.0
    ensures t.rate > 0.0 && |t.schedule| == |s.schedule| + 1
  {
    var event := ScheduledEvent(d, month);
    ScheduledEventFacts(d, month);
    var balance := s.balance - Prepayment(event);
    var rate := RateAfter(event, s.rate);
    var interest := Interest(balance, s.rate);
    var principal := if month == d.loanTermMonths then balance else 0.0;
    Post(s, month, balance, rate, s.basis, principal, interest)
  }

  /** The ledger after the first k months. */
  function Run(d: LoanData, k: nat): (s: Ledger)
    requires Valid(d) && k <= d.loanTermMonths
    ensures s.rate > 0.0 && |s.schedule| == k
  {
    if k == 0 then Opening(d, 0.0) else Month(d, Run(d, k - 1), k)
  }

  /** The result calculateBulletPayment returns. */
  function ScheduleOf(d: LoanData): CalculationResult
    requires Valid(d)
  {
    Finish(d, Run(d, d.loanTermMonths))
  }

  /** calculateBulletPayment. */
  method Calculate(d: LoanData) returns (res: CalculationResult)
    requires Valid(d)
    ensures res == ScheduleOf(d)
  {
    var remainingPrincipal := d.principal;
    var currentAnnualRate := d.annualRate;
    var totalInterest := 0.0;
    var schedule: seq<ScheduleEntry> := [];
    var repayments := SortByRound(d.repayments);
    for month := 1 to d.loanTermMonths + 1
      invariant Ledger(remainingPrincipal, currentAnnualRate, totalInterest, 0.0, schedule) == Run(d, month - 1)
    {
      ghost var before := Run(d, month - 1);
      var monthlyRate := MonthlyRate(currentAnnualRate);
      var event := EventAt(repayments, month);
      SortKeepsLookup(d.repayments, month);
      ScheduledEventFacts(d, month);
      assert event == ScheduledEvent(d, month);
      if event.Some? {
        if Truthy(event.value.amount) {
          remainingPrincipal := remainingPrincipal - event.value.amount.value;
        }
        if Truthy(event.value.newRate) {
          currentAnnualRate := event.value.newRate.value;
        }
      }
      var interestPayment := remainingPrincipal * monthlyRate;
      InterestAt(remainingPrincipal, monthlyRate, before.rate);
      var principalPayment := 0.0;
      if month == d.loanTermMonths {
        principalPayment := remainingPrincipal;
      }
      var totalPayment := principalPayment + interestPayment;
      RunStep(d, month, remainingPrincipal, currentAnnualRate, principalPayment, interestPayment);
      totalInterest := totalInterest + interestPayment;
      if month == d.loanTermMonths {
        remainingPrincipal := remainingPrincipal - principalPayment;
      }
      schedule := schedule + [ScheduleEntry(month, principalPayment, interestPayment, totalPayment,
                                            Max(0.0, remainingPrincipal))];
    }
    res := CalculationResult(totalInterest, d.principal + totalInterest, schedule);
  }

  /** Month k posts the values the loop body computes from the ledger of month k - 1. */
  lemma RunStep(d: LoanData, k: nat, balance: real, rate: real, principal: real, interest: real)
    requires Valid(d) && 1 <= k <= d.loanTermMonths
    requires var s := Run(d, k - 1);
      var event := ScheduledEvent(d, k);
      && balance == s.balance - Prepayment(event)
      && rate == RateAfter(event, s.rate)
      && interest == Interest(balance, s.rate)
      && principal == if k == d.loanTermMonths then balance else 0.0
    ensures var s := Run(d, k - 1);
      Run(d, k) == Ledger(balance - principal, rate, s.totalInterest + interest, s.basis,
                          s.schedule + [ScheduleEntry(k, principal, interest, principal + interest,
                                                      Max(0.0, balance - principal))])
  {
  }

  /** Posting month k keeps the books. */
  lemma StepBooks(d: LoanData, k: nat)
    requires Valid(d) && 1 <= k <= d.loanTermMonths && Books(d, Run(d, k - 1), k - 1)
    ensures Books(d, Run(d, k), k)
  {
    var s := Run(d, k - 1);
    var event := ScheduledEvent(d, k);
    var balance := s.balance - Prepayment(event);
    var principal := if k == d.loanTermMonths then balance else 0.0;
    PostBooks(d, s, k - 1, balance, RateAfter(event, s.rate), s.basis, principal, Interest(balance, s.rate));
  }

  /** The ledger keeps the books every month. */
  lemma {:induction false} RunBooks(d: LoanData, k: nat)
    requires Valid(d) && k <= d.loanTermMonths
    ensures Books(d, Run(d, k), k)
  {
    if k == 0 {
      OpeningBooks(d, 0.0);
    } else {
      RunBooks(d, k - 1);
      StepBooks(d, k);
    }
  }

  /**
   * One entry per month numbered from 1, no negative reported balance, every payment split
   * into principal and interest, `totalInterest` the sum of the interest column and
   * `totalPaid = principal + totalInterest`.
   */
  lemma ScheduleShape(d: LoanData)
    requires Valid(d)
    ensures WellFormed(d, ScheduleOf(d))
  {
    RunBooks(d, d.loanTermMonths);
    FinishWellFormed(d, Run(d, d.loanTermMonths));
  }

  lemma {:induction false} RunPrefix(d: LoanData, j: nat, k: nat)
    requires Valid(d) && j <= k <= d.loanTermMonths
    ensures Run(d, j).schedule == Run(d, k).schedule[..j]
    decreases k
  {
    if j < k {
      RunPrefix(d, j, k - 1);
      assert Run(d, k).schedule[..k - 1] == Run(d, k - 1).schedule;
    }
  }

  /**
   * Entry m of the result: the month's prepayment lowers the balance before interest is
   * charged at the rate in force before the event; months before the last repay no principal
   * and report the post-event balance; the last month repays all of it.
   */
  lemma MonthEntry(d: LoanData, m: nat)
    requires Valid(d) && 1 <= m <= d.loanTermMonths
    ensures
      var s := Run(d, m - 1);
      var event := ScheduledEvent(d, m);
      var balance := s.balance - Prepayment(event);
      var t := Run(d, m);
      var e := ScheduleOf(d).schedule[m - 1];
      && e.month == m
      && e.interestPayment == Interest(balance, s.rate)
      && t.rate == RateAfter(event, s.rate)
      && (m < d.loanTermMonths ==> e.principalPayment == 0.0 && t.balance == balance)
      && (m == d.loanTermMonths ==> e.principalPayment == balance && t.balance == 0.0)
      && e.totalPayment == e.principalPayment + e.interestPayment
      && e.remainingPrincipal == Max(0.0, t.balance)
  {
    RunPrefix(d, m, d.loanTermMonths);
  }

  /**
   * Whatever the events, the last month repays the balance left, so the loan ends at zero and
   * the principal column sums to the principal less the prepayments.
   */
  lemma RepaidAtMaturity(d: LoanData)
    requires Valid(d)
    ensures Run(d, d.loanTermMonths).balance == 0.0
    ensures ScheduleOf(d).schedule[d.loanTermMonths - 1].remainingPrincipal == 0.0
    ensures SumPrincipal(ScheduleOf(d).schedule) == d.principal - Prepaid(d, d.loanTermMonths)
  {
    MonthEntry(d, d.loanTermMonths);
    RunBooks(d, d.loanTermMonths);
  }

  /** Without events: the balance stays the principal and the rate the opening rate. */
  lemma {:induction false} LevelState(d: LoanData, k: nat)
    requires Valid(d) && NoEventWithinTerm(d) && k < d.loanTermMonths
    ensures Run(d, k).rate == d.annualRate
    ensures Run(d, k).balance == d.principal
  {
    if k > 0 {
      LevelState(d, k - 1);
      NoScheduledEvent(d, k);
      MonthEntry(d, k);
    }
  }

  /**
   * Without events in the term: every month charges the interest on the principal at the
   * opening rate, only the last month repays principal (all of it), and the total interest is
   * that monthly interest times the term.
   */
  lemma LevelInterest(d: LoanData)
    requires Valid(d) && NoEventWithinTerm(d)
    ensures
      var r := ScheduleOf(d);
      var n := d.loanTermMonths;
      && (forall k :: 0 <= k < n ==> r.schedule[k].interestPayment == Interest(d.principal, d.annualRate))
      && (forall k :: 0 <= k < n - 1 ==> r.schedule[k].principalPayment == 0.0)
      && r.schedule[n - 1].principalPayment == d.principal
      && r.totalInterest == Interest(d.principal, d.annualRate) * n as real
  {
    var r := ScheduleOf(d);
    var n := d.loanTermMonths;
    var x := Interest(d.principal, d.annualRate);
    forall k | 0 <= k < n
      ensures r.schedule[k].interestPayment == x
      ensures k < n - 1 ==> r.schedule[k].principalPayment == 0.0
    {
      LevelEntry(d, k);
    }
    LevelEntry(d, n - 1);
    ScheduleShape(d);
    TotalOfEqualInterest(r, n, x);
  }

  /** Entry k without events: interest on the principal, and principal only in the last month. */
  lemma LevelEntry(d: LoanData, k: nat)
    requires Valid(d) && NoEventWithinTerm(d) && k < d.loanTermMonths
    ensures var e := ScheduleOf(d).schedule[k];
      && e.interestPayment == Interest(d.principal, d.annualRate)
      && e.principalPayment == if k == d.loanTermMonths - 1 then d.principal else 0.0
  {
    LevelState(d, k);
    NoScheduledEvent(d, k + 1);
    MonthEntry(d, k + 1);
  }

  lemma {:induction false} RunIgnoresGrace(d: LoanData, e: LoanData, k: nat)
    requires Valid(d) && e == d.(gracePeriodMonths := 0) && k <= d.loanTermMonths
    ensures Run(d, k) == Run(e, k)
  {
    if k > 0 {
      RunIgnoresGrace(d, e, k - 1);
      assert ScheduledEvent(d, k) == ScheduledEvent(e, k);
    }
  }

  /** The grace period makes no difference to a bullet loan. */
  lemma GraceIgnored(d: LoanData)
    requires Valid(d)
    ensures Valid(d.(gracePeriodMonths := 0))
    ensures ScheduleOf(d) == ScheduleOf(d.(gracePeriodMonths := 0))
  {
    RunIgnoresGrace(d, d.(gracePeriodMonths := 0), d.loanTermMonths);
  }

  /** A month depends on the loan only through its term, grace period and that month's event. */
  lemma MonthWithinTerm(d: LoanData, e: LoanData, s: Ledger, k: nat)
    requires Valid(d) && Valid(e) && SameWithinTerm(d, e) && 1 <= k <= d.loanTermMonths && s.rate > 0.0
    ensures Month(d, s, k) == Month(e, s, k)
  {
    assert ScheduledEvent(d, k) == ScheduledEvent(e, k);
  }

  lemma {:induction false} RunWithinTerm(d: LoanData, e: LoanData, k: nat)
    requires Valid(d) && Valid(e) && SameWithinTerm(d, e) && k <= d.loanTermMonths
    ensures Run(d, k) == Run(e, k)
  {
    if k > 0 {
      RunWithinTerm(d, e, k - 1);
      MonthWithinTerm(d, e, Run(d, k - 1), k);
    }
  }

  /** Only the events of months 1..loanTermMonths affect the schedule; later ones never apply. */
  lemma OnlyEventsWithinTermApply(d: LoanData, e: LoanData)
    requires Valid(d) && Valid(e) && SameWithinTerm(d, e)
    ensures ScheduleOf(d) == ScheduleOf(e)
  {
    RunWithinTerm(d, e, d.loanTermMonths);
  }
}
