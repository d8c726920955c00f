/**
 * Equal installments (calculateEqualInstallments): after the grace months every month pays
 * the annuity instalment of the current balance over the months left, recomputed each month
 * at the rate in force after that month's event.
 */
module EqualInstallments {
  import opened LoanLogic

  /** `Math.pow(x, n)` for a whole exponent. */
  function Pow(x: real, n: nat): real {
    if n == 0 then 1.0 else x * Pow(x, n - 1)
  }

  /** `(1 + i)^n > 1` for a positive monthly rate and n >= 1, so the instalment's divisor is positive. */
  lemma {:induction false} PowAboveOne(x: real, n: nat)
    requires x > 1.0 && n >= 1
    ensures Pow(x, n) > 1.0
  {
    if n > 1 {
      PowAboveOne(x, n - 1);
      var p := Pow(x, n - 1);
      assert (x - 1.0) * p > 0.0;
      assert x * p == (x - 1.0) * p + p;
    }
  }

  /** `i * (1+i)^n / ((1+i)^n - 1)`: the instalment per unit of balance over n months. */
  function AnnuityFactor(annualRate: real, n: nat): (f: real)
    requires annualRate > 0.0 && n >= 1
  {
    var i := MonthlyRate(annualRate);
    PowAboveOne(1.0 + i, n);
    var q := Pow(1.0 + i, n);
    i * q / (q - 1.0)
  }

  /**
   * getMonthlyPayment: the level instalment that repays `p` in `n` months at annual rate
   * `r` percent, `p * (i * (1+i)^n) / ((1+i)^n - 1)` with `i` the monthly rate; 0 when n <= 0.
   */
  function MonthlyPayment(p: real, r: real, n: int): (m: real)
    requires r > 0.0
    ensures n <= 0 ==> m == 0.0
  {
    if n <= 0 then 0.0 else p * AnnuityFactor(r, n)
  }

  /** A smaller balance has a smaller instalment, at the same rate and over the same months. */
  lemma InstalmentFalls(p: real, a: real, r: real, n: int)
    requires r > 0.0 && a > 0.0 && n >= 1
    ensures MonthlyPayment(p - a, r, n) < MonthlyPayment(p, r, n)
  {
    var i := MonthlyRate(r);
    PowAboveOne(1.0 + i, n);
    var q := Pow(1.0 + i, n);
    var f := AnnuityFactor(r, n);
    assert f == i * q / (q - 1.0);
    assert i * q > 0.0;
    assert f > 0.0;
    assert MonthlyPayment(p, r, n) - MonthlyPayment(p - a, r, n) == a * f;
    assert a * f > 0.0;
  }

  /** Over a single month the instalment is the balance plus its month of interest. */
  lemma LastInstalment(p: real, r: real)
    requires r > 0.0
    ensures MonthlyPayment(p, r, 1) == p + Interest(p, r)
  {
    var i := MonthlyRate(r);
    assert i > 0.0;
    assert Pow(1.0 + i, 1) == 1.0 + i;
    assert AnnuityFactor(r, 1) == i * (1.0 + i) / ((1.0 + i) - 1.0);
    CancelFactor(i);
  }

  /** The instalment exceeds the month's interest, so principal is repaid every month. */
  lemma InstalmentAboveInterest(p: real, r: real, n: int)
    requires r > 0.0 && p > 0.0 && n >= 1
    ensures MonthlyPayment(p, r, n) > Interest(p, r)
  {
    var i := MonthlyRate(r);
    PowAboveOne(1.0 + i, n);
    var q := Pow(1.0 + i, n);
    var t := q / (q - 1.0);
    assert t * (q - 1.0) == q;
    assert t > 1.0 by {
      if t <= 1.0 {
        ProductNonNegative(1.0 - t, q - 1.0);
      }
    }
    assert AnnuityFactor(r, n) == i * t;
    assert i * t > i;
    assert p * AnnuityFactor(r, n) > p * i;
  }

  lemma CancelFactor(b: real)
    requires b > 0.0
    ensures b * (1.0 + b) / ((1.0 + b) - 1.0) == 1.0 + b
  {
    var a := 1.0 + b;
    var x := b * a / b;
    assert x * b == b * a;
    assert (x - a) * b == 0.0;
    assert x == a;
    assert b * (1.0 + b) / ((1.0 + b) - 1.0) == x;
  }

  lemma ProductNonNegative(a: real, b: real)
    requires a >= 0.0 && b >= 0.0
    ensures a * b >= 0.0
  {
  }

  /** The algebra behind AnnuityStep, with `Q = (1+i)^(n-1)`. */
  lemma FactorStep(i: real, bigQ: real)
    requires i > 0.0 && bigQ > 1.0
    ensures
      var q := 1.0 + i;
      (q - i * (q * bigQ) / (q * bigQ - 1.0)) * (i * bigQ / (bigQ - 1.0)) == i * (q * bigQ) / (q * bigQ - 1.0)
  {
    var q := 1.0 + i;
    var den := q * bigQ - 1.0;
    assert den > bigQ - 1.0 > 0.0 by {
      assert q * bigQ == bigQ + i * bigQ;
      assert i * bigQ > 0.0;
    }
    var a := i * (q * bigQ) / den;
    var rest := q - a;
    assert rest * den == q * den - i * (q * bigQ);
    assert q * den - i * (q * bigQ) == q * (bigQ - 1.0) by {
      assert q * den == q * (q * bigQ) - q;
      assert q * (q * bigQ) - i * (q * bigQ) == (q - i) * (q * bigQ);
    }
    assert rest == q * (bigQ - 1.0) / den;
    var f := i * bigQ / (bigQ - 1.0);
    assert rest * f == (q * (bigQ - 1.0) / den) * (i * bigQ / (bigQ - 1.0));
    assert (q * (bigQ - 1.0) / den) * (i * bigQ / (bigQ - 1.0)) == (q * i * bigQ) / den;
  }

  /**
   * One month of amortisation keeps the instalment: paying the instalment of `balance` over
   * `n` months leaves a balance whose instalment over `n - 1` months is the same amount.
   */
  lemma AnnuityStep(balance: real, r: real, n: int)
    requires r > 0.0 && n >= 2
    ensures
      var a := MonthlyPayment(balance, r, n);
      MonthlyPayment(balance - (a - Interest(balance, r)), r, n - 1) == a
  {
    var i := MonthlyRate(r);
    var q := 1.0 + i;
    PowAboveOne(q, n - 1);
    var bigQ := Pow(q, n - 1);
    assert Pow(q, n) == q * bigQ;
    var fn := AnnuityFactor(r, n);
    var fm := AnnuityFactor(r, n - 1);
    assert fn == i * (q * bigQ) / (q * bigQ - 1.0);
    assert fm == i * bigQ / (bigQ - 1.0);
    FactorStep(i, bigQ);
    assert (q - fn) * fm == fn;
    var a := balance * fn;
    assert balance - (a - Interest(balance, r)) == balance * (q - fn);
    assert balance * (q - fn) * fm == balance * fn;
  }

  // ---------------------------------------------------------------------------
  // The schedule
  // ---------------------------------------------------------------------------

  /**
   * One pass of the loop body for `month`, from the ledger left by the month before: the
   * event's prepayment lowers the balance, interest is charged at the rate in force before
   * the event, and after the grace months the payment is the instalment of the balance over
   * the months left at the rate in force after the event.
   */
  function Month(d: LoanData, s: Ledger, month: nat): (t: Ledger)
    requires Valid(d) && 1 <= month <= d.loanTermMonths && s.rate > 0.0
    ensures t.rate > 0.0 && |t.schedule| == |s.schedule| + 1
  {
    var event := ScheduledEvent(d, month);
    ScheduledEventFacts(d, month);
    var balance := s.balance - Prepayment(event);
    var rate := RateAfter(event, s.rate);
    var interest := Interest(balance, s.rate);
    var principal :=
      if month > d.gracePeriodMonths
      then MonthlyPayment(balance, rate, d.loanTermMonths - month + 1) - interest
      else 0.0;
    Post(s, month, balance, rate, s.basis, principal, interest)
  }

  /** The ledger after the first k months. */
  function Run(d: LoanData, k: nat): (s: Ledger)
    requires Valid(d) && k <= d.loanTermMonths
    ensures s.rate > 0.0 && |s.schedule| == k
  {
    if k == 0 then Opening(d, 0.0) else Month(d, Run(d, k - 1), k)
  }

  /** The result calculateEqualInstallments returns. */
  function ScheduleOf(d: LoanData): CalculationResult
    requires Valid(d)
  {
    Finish(d, Run(d, d.loanTermMonths))
  }

  /** calculateEqualInstallments. */
  method Calculate(d: LoanData) returns (res: CalculationResult)
    requires Valid(d)
    ensures res == ScheduleOf(d)
  {
    var remainingPrincipal := d.principal;
    var currentAnnualRate := d.annualRate;
    var totalInterest := 0.0;
    var schedule: seq<ScheduleEntry> := [];
    var repayments := SortByRound(d.repayments);
    for month := 1 to d.loanTermMonths + 1
      invariant Ledger(remainingPrincipal, currentAnnualRate, totalInterest, 0.0, schedule) == Run(d, month - 1)
    {
      ghost var before := Run(d, month - 1);
      var monthlyRate := MonthlyRate(currentAnnualRate);
      var event := EventAt(repayments, month);
      SortKeepsLookup(d.repayments, month);
      ScheduledEventFacts(d, month);
      if event.Some? {
        if Truthy(event.value.amount) {
          remainingPrincipal := remainingPrincipal - event.value.amount.value;
        }
        if Truthy(event.value.newRate) {
          currentAnnualRate := event.value.newRate.value;
        }
      }
      var interestPayment := remainingPrincipal * monthlyRate;
      var principalPayment := 0.0;
      var totalPayment := interestPayment;
      if month > d.gracePeriodMonths {
        var regularMonthlyPayment :=
          MonthlyPayment(remainingPrincipal, currentAnnualRate, d.loanTermMonths - month + 1);
        totalPayment := regularMonthlyPayment;
        principalPayment := totalPayment - interestPayment;
      }
      InterestAt(remainingPrincipal, monthlyRate, before.rate);
      RunStep(d, month, remainingPrincipal, currentAnnualRate, principalPayment, interestPayment, totalPayment);
      remainingPrincipal := remainingPrincipal - principalPayment;
      totalInterest := totalInterest + interestPayment;
      schedule := schedule + [ScheduleEntry(month, principalPayment, interestPayment, totalPayment,
                                            Max(0.0, remainingPrincipal))];
    }
    res := CalculationResult(totalInterest, d.principal + totalInterest, schedule);
  }

  lemma RunStep(d: LoanData, k: nat, balance: real, rate: real, principal: real, interest: real, total: real)
    requires Valid(d) && 1 <= k <= d.loanTermMonths
    requires var s := Run(d, k - 1);
      && balance == s.balance - Prepayment(ScheduledEvent(d, k))
      && rate == RateAfter(ScheduledEvent(d, k), s.rate)
      && interest == Interest(balance, s.rate)
      && principal == if k > d.gracePeriodMonths
                      then MonthlyPayment(balance, rate, d.loanTermMonths - k + 1) - interest
                      else 0.0
    requires total == principal + interest
    ensures var s := Run(d, k - 1);
      Run(d, k) == Ledger(balance - principal, rate, s.totalInterest + interest, s.basis,
                          s.schedule + [ScheduleEntry(k, principal, interest, total, Max(0.0, balance - principal))])
  {
  }

  /** Posting month k keeps the books. */
  lemma StepBooks(d: LoanData, k: nat)
    requires Valid(d) && 1 <= k <= d.loanTermMonths && Books(d, Run(d, k - 1), k - 1)
    ensures Books(d, Run(d, k), k)
  {
    var s := Run(d, k - 1);
    var event := ScheduledEvent(d, k);
    var balance := s.balance - Prepayment(event);
    var rate := RateAfter(event, s.rate);
    var interest := Interest(balance, s.rate);
    var principal :=
      if k > d.gracePeriodMonths
      then MonthlyPayment(balance, rate, d.loanTermMonths - k + 1) - interest
      else 0.0;
    PostBooks(d, s, k - 1, balance, rate, s.basis, principal, interest);
  }

  /** The ledger keeps the books every month. */
  lemma {:induction false} RunBooks(d: LoanData, k: nat)
    requires Valid(d) && k <= d.loanTermMonths
    ensures Books(d, Run(d, k), k)
  {
    if k == 0 {
      OpeningBooks(d, 0.0);
    } else {
      RunBooks(d, k - 1);
      StepBooks(d, k);
    }
  }

  /**
   * One entry per month numbered from 1, no negative reported balance, every payment split
   * into principal and interest, `totalInterest` the sum of the interest column and
   * `totalPaid = principal + totalInterest`.
   */
  lemma ScheduleShape(d: LoanData)
    requires Valid(d)
    ensures WellFormed(d, ScheduleOf(d))
  {
    RunBooks(d, d.loanTermMonths);
    FinishWellFormed(d, Run(d, d.loanTermMonths));
  }

  lemma {:induction false} RunPrefix(d: LoanData, j: nat, k: nat)
    requires Valid(d) && j <= k <= d.loanTermMonths
    ensures Run(d, j).schedule == Run(d, k).schedule[..j]
    decreases k
  {
    if j < k {
      RunPrefix(d, j, k - 1);
      assert Run(d, k).schedule[..k - 1] == Run(d, k - 1).schedule;
    }
  }

  /**
   * Entry m of the result: the month's prepayment lowers the balance before interest is
   * charged; interest is charged at the rate in force before the month's event; a grace month
   * pays interest only; a later month pays the instalment of the post-event balance over the
   * months left at the post-event rate; and the reported balance is the new balance clamped at 0.
   */
  lemma MonthEntry(d: LoanData, m: nat)
    requires Valid(d) && 1 <= m <= d.loanTermMonths
    ensures
      var s := Run(d, m - 1);
      var event := ScheduledEvent(d, m);
      var balance := s.balance - Prepayment(event);
      var rate := RateAfter(event, s.rate);
      var e := ScheduleOf(d).schedule[m - 1];
      && e.month == m
      && e.interestPayment == Interest(balance, s.rate)
      && (m <= d.gracePeriodMonths ==> e.principalPayment == 0.0 && e.totalPayment == e.interestPayment)
      && (m > d.gracePeriodMonths ==> e.totalPayment == MonthlyPayment(balance, rate, d.loanTermMonths - m + 1))
      && Run(d, m).balance == balance - e.principalPayment
      && Run(d, m).rate == rate
      && e.remainingPrincipal == Max(0.0, Run(d, m).balance)
  {
    RunPrefix(d, m, d.loanTermMonths);
  }

  /**
   * The balance left after the last month is the post-event balance times the drop in the
   * monthly rate in that month: zero unless the last month's event changes the rate (a lower
   * rate leaves principal unpaid, a higher one overpays and is reported as zero).
   */
  lemma FinalBalance(d: LoanData)
    requires Valid(d) && d.gracePeriodMonths < d.loanTermMonths
    ensures
      var s := Run(d, d.loanTermMonths - 1);
      var event := ScheduledEvent(d, d.loanTermMonths);
      var balance := s.balance - Prepayment(event);
      Run(d, d.loanTermMonths).balance == Interest(balance, s.rate) - Interest(balance, RateAfter(event, s.rate))
  {
    var n := d.loanTermMonths;
    var s := Run(d, n - 1);
    var event := ScheduledEvent(d, n);
    var balance := s.balance - Prepayment(event);
    MonthEntry(d, n);
    LastInstalment(balance, RateAfter(event, s.rate));
  }

  /** Unless the last month's event changes the rate, the loan ends fully repaid. */
  lemma RepaidAtMaturity(d: LoanData)
    requires Valid(d) && d.gracePeriodMonths < d.loanTermMonths
    requires var event := ScheduledEvent(d, d.loanTermMonths);
      RateAfter(event, Run(d, d.loanTermMonths - 1).rate) == Run(d, d.loanTermMonths - 1).rate
    ensures Run(d, d.loanTermMonths).balance == 0.0
    ensures ScheduleOf(d).schedule[d.loanTermMonths - 1].remainingPrincipal == 0.0
  {
    FinalBalance(d);
    MonthEntry(d, d.loanTermMonths);
  }

  /** Without events: rate and balance during grace, and the instalment kept afterwards. */
  lemma {:induction false} LevelState(d: LoanData, k: nat)
    requires Valid(d) && NoEventWithinTerm(d) && d.gracePeriodMonths < d.loanTermMonths
    requires k <= d.loanTermMonths
    ensures Run(d, k).rate == d.annualRate
    ensures k <= d.gracePeriodMonths ==> Run(d, k).balance == d.principal
    ensures d.gracePeriodMonths <= k < d.loanTermMonths ==>
      MonthlyPayment(Run(d, k).balance, d.annualRate, d.loanTermMonths - k)
        == MonthlyPayment(d.principal, d.annualRate, d.loanTermMonths - d.gracePeriodMonths)
  {
    if k > 0 {
      LevelState(d, k - 1);
      NoScheduledEvent(d, k);
      LevelMonth(d, k);
    }
  }

  /**
   * A month without an event keeps the rate; in grace it keeps the balance, and after grace
   * the instalment over the months left.
   */
  lemma LevelMonth(d: LoanData, k: nat)
    requires Valid(d) && 1 <= k <= d.loanTermMonths && ScheduledEvent(d, k).None?
    ensures Run(d, k).rate == Run(d, k - 1).rate
    ensures k <= d.gracePeriodMonths ==> Run(d, k).balance == Run(d, k - 1).balance
    ensures d.gracePeriodMonths < k < d.loanTermMonths ==>
      MonthlyPayment(Run(d, k).balance, Run(d, k - 1).rate, d.loanTermMonths - k)
        == MonthlyPayment(Run(d, k - 1).balance, Run(d, k - 1).rate, d.loanTermMonths - k + 1)
  {
    MonthEntry(d, k);
    if d.gracePeriodMonths < k < d.loanTermMonths {
      AnnuityStep(Run(d, k - 1).balance, Run(d, k - 1).rate, d.loanTermMonths - (k - 1));
    }
  }

  /**
   * Without events in the term and with some month after the grace period: grace months pay
   * the interest on the principal only, every later month pays the same instalment, the loan
   * ends fully repaid and the principal column sums to the principal.
   */
  lemma LevelPayment(d: LoanData)
    requires Valid(d) && NoEventWithinTerm(d) && d.gracePeriodMonths < d.loanTermMonths
    ensures
      var r := ScheduleOf(d);
      var g := d.gracePeriodMonths;
      var instalment := MonthlyPayment(d.principal, d.annualRate, d.loanTermMonths - g);
      && (forall k :: 0 <= k < g ==>
            r.schedule[k].principalPayment == 0.0
            && r.schedule[k].totalPayment == Interest(d.principal, d.annualRate))
      && (forall k :: g <= k < d.loanTermMonths ==> r.schedule[k].totalPayment == instalment)
      && r.schedule[d.loanTermMonths - 1].remainingPrincipal == 0.0
      && SumPrincipal(r.schedule) == d.principal
  {
    forall k | 0 <= k < d.loanTermMonths {
      LevelEntry(d, k);
    }
    LevelState(d, d.loanTermMonths - 1);
    NoScheduledEvent(d, d.loanTermMonths);
    RepaidAtMaturity(d);
    RunBooks(d, d.loanTermMonths);
    PrepaidNothing(d, d.loanTermMonths);
  }

  /**
   * A prepayment after the grace period that leaves the rate unchanged lowers the instalment:
   * when month m - 1 has no event, month m pays less than month m - 1.
   */
  lemma PrepaymentLowersInstalment(d: LoanData, m: nat)
    requires Valid(d) && d.gracePeriodMonths + 1 < m <= d.loanTermMonths
    requires ScheduledEvent(d, m - 1).None?
    requires ScheduledEvent(d, m).Some? && Prepayment(ScheduledEvent(d, m)) > 0.0
    requires RateAfter(ScheduledEvent(d, m), Run(d, m - 1).rate) == Run(d, m - 1).rate
    ensures ScheduleOf(d).schedule[m - 1].totalPayment < ScheduleOf(d).schedule[m - 2].totalPayment
  {
    var before := Run(d, m - 1);
    LevelMonth(d, m - 1);
    MonthEntry(d, m - 1);
    MonthEntry(d, m);
    InstalmentFalls(before.balance, Prepayment(ScheduledEvent(d, m)), before.rate, d.loanTermMonths - m + 1);
  }

  /** Entry k without events: interest only in grace, the instalment of the principal after it. */
  lemma LevelEntry(d: LoanData, k: nat)
    requires Valid(d) && NoEventWithinTerm(d) && d.gracePeriodMonths < d.loanTermMonths
    requires k < d.loanTermMonths
    ensures var e := ScheduleOf(d).schedule[k];
      && (k < d.gracePeriodMonths ==>
            e.principalPayment == 0.0 && e.totalPayment == Interest(d.principal, d.annualRate))
      && (d.gracePeriodMonths <= k ==>
            e.totalPayment == MonthlyPayment(d.principal, d.annualRate, d.loanTermMonths - d.gracePeriodMonths))
  {
    LevelState(d, k);
    NoScheduledEvent(d, k + 1);
    MonthEntry(d, k + 1);
  }

  /** A month depends on the loan only through its term, grace period and that month's event. */
  lemma MonthSameEvent(d: LoanData, e: LoanData, s: Ledger, k: nat)
    requires Valid(d) && Valid(e) && 1 <= k <= d.loanTermMonths && s.rate > 0.0
    requires d.loanTermMonths == e.loanTermMonths && d.gracePeriodMonths == e.gracePeriodMonths
    requires ScheduledEvent(d, k) == ScheduledEvent(e, k)
    ensures Month(d, s, k) == Month(e, s, k)
  {
  }

  /** Before the first event (every event at round r or later) the ledger is that of the loan without events. */
  lemma {:induction false} RunBeforeFirstEvent(d: LoanData, r: int, k: nat)
    requires Valid(d) && k < r && k <= d.loanTermMonths
    requires forall e :: e in d.repayments ==> e.round >= r
    ensures Valid(d.(repayments := []))
    ensures Run(d, k) == Run(d.(repayments := []), k)
  {
    var e := d.(repayments := []);
    if k > 0 {
      RunBeforeFirstEvent(d, r, k - 1);
      ScheduledEventFacts(d, k);
      ScheduledEventFacts(e, k);
      MonthSameEvent(d, e, Run(d, k - 1), k);
    }
  }

  /** Until the first event (every event at round r or later) the schedule is that of the loan without events. */
  lemma SameBeforeFirstEvent(d: LoanData, r: int, k: nat)
    requires Valid(d) && k < d.loanTermMonths && k + 1 < r
    requires forall e :: e in d.repayments ==> e.round >= r
    ensures Valid(d.(repayments := []))
    ensures ScheduleOf(d).schedule[k] == ScheduleOf(d.(repayments := [])).schedule[k]
  {
    RunBeforeFirstEvent(d, r, k + 1);
    RunPrefix(d, k + 1, d.loanTermMonths);
    RunPrefix(d.(repayments := []), k + 1, d.loanTermMonths);
  }

  /**
   * Until the first event (every event at round r or later) grace months pay the interest on the
   * principal only, and later months pay the principal's instalment over the months after the
   * grace period, as in a loan without events.
   */
  lemma LevelBeforeFirstEvent(d: LoanData, r: int, k: nat)
    requires Valid(d) && d.gracePeriodMonths < d.loanTermMonths
    requires forall e :: e in d.repayments ==> e.round >= r
    requires k < d.loanTermMonths && k + 1 < r
    ensures var e := ScheduleOf(d).schedule[k];
      && (k < d.gracePeriodMonths ==>
            e.principalPayment == 0.0 && e.totalPayment == Interest(d.principal, d.annualRate))
      && (d.gracePeriodMonths <= k ==>
            e.totalPayment == MonthlyPayment(d.principal, d.annualRate, d.loanTermMonths - d.gracePeriodMonths))
  {
    SameBeforeFirstEvent(d, r, k);
    LevelEntry(d.(repayments := []), k);
  }

  lemma {:induction false} RunWithinTerm(d: LoanData, e: LoanData, k: nat)
    requires Valid(d) && Valid(e) && SameWithinTerm(d, e) && k <= d.loanTermMonths
    ensures Run(d, k) == Run(e, k)
  {
    if k > 0 {
      RunWithinTerm(d, e, k - 1);
      assert ScheduledEvent(d, k) == ScheduledEvent(e, k);
      MonthSameEvent(d, e, Run(d, k - 1), k);
    }
  }

  /** Only the events of months 1..loanTermMonths affect the schedule; later ones never apply. */
  lemma OnlyEventsWithinTermApply(d: LoanData, e: LoanData)
    requires Valid(d) && Valid(e) && SameWithinTerm(d, e)
    ensures ScheduleOf(d) == ScheduleOf(e)
  {
    RunWithinTerm(d, e, d.loanTermMonths);
  }
}
