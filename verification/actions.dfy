/**
 * The server action: the refinance estimate layered on the equal-installments result, the
 * filter that turns the form's repayment rows into events, and the assembly of the three
 * schedules (calculateRefinanceSavings and calculateAllLoanScenarios). Form fields arrive
 * already parsed: a number, NaN, or (for optional fields) absent.
 */
module Actions {
  import opened Wrappers
  import opened LoanLogic
  import EqualInstallments
  import EqualPrincipal
  import BulletPayment

  /** The month after which the loan is assumed to be refinanced. */
  const RefinanceMonth := 12

  /** The average tier-1 rate (percent) a refinanced loan is assumed to get at best. */
  const Tier1AvgRate := 3.8

  /** Money fields on the form are in units of 10,000 won. */
  const WonPerFormUnit := 10000.0

  datatype RefinanceEstimate = RefinanceEstimate(
    potentialSavings: int,
    originalTotalInterest: int,
    refinancedTotalInterest: int)

  /** `Math.round`: the nearest integer, halves rounded up. */
  function Round(x: real): (n: int)
    ensures x - 0.5 < n as real <= x + 0.5
  {
    (x + 0.5).Floor
  }

  /** The rate offered on refinancing: one point lower, but not below the tier-1 average. */
  function RefinanceRate(annualRate: real): real {
    Max(Tier1AvgRate, annualRate - 1.0)
  }

  /** The loan taken out after month 12: the balance left, at the new rate, over the months left. */
  function RefinancedLoan(d: LoanData, principal: real, newAnnualRate: real): LoanData {
    LoanData(principal, d.loanTermMonths - RefinanceMonth, newAnnualRate, 0, [])
  }

  /** The guards that let an estimate be attempted at all. */
  predicate RefinanceApplies(d: LoanData, original: CalculationResult) {
    d.annualRate > Tier1AvgRate && d.loanTermMonths > RefinanceMonth && |original.schedule| > RefinanceMonth
  }

  /**
   * calculateRefinanceSavings: the interest saved by refinancing the equal-installments loan
   * after month 12, or None when the rate is already at most 3.8%, the term or the schedule is
   * at most 12 months, nothing is left to refinance, or nothing would be saved.
   */
  function RefinanceSavings(d: LoanData, original: CalculationResult): (r: Option<RefinanceEstimate>)
    ensures !RefinanceApplies(d, original) ==> r.None?
    ensures r.Some? ==>
      RefinanceApplies(d, original)
      && original.schedule[RefinanceMonth - 1].remainingPrincipal > 0.0
      && r.value.potentialSavings >= 0
  {
    if d.annualRate <= Tier1AvgRate || d.loanTermMonths <= RefinanceMonth
       || |original.schedule| <= RefinanceMonth then
      None
    else
      var newAnnualRate := RefinanceRate(d.annualRate);
      if newAnnualRate >= d.annualRate then None
      else
        var interestPaidSoFar := SumInterest(original.schedule[..RefinanceMonth]);
        var principalAtRefinance := original.schedule[RefinanceMonth - 1].remainingPrincipal;
        if principalAtRefinance <= 0.0 then None
        else
          var refinanced := EqualInstallments.ScheduleOf(RefinancedLoan(d, principalAtRefinance, newAnnualRate));
          var refinancedTotalInterest := interestPaidSoFar + refinanced.totalInterest;
          var potentialSavings := original.totalInterest - refinancedTotalInterest;
          if potentialSavings <= 0.0 then None
          else Some(RefinanceEstimate(Round(potentialSavings), Round(original.totalInterest),
                                      Round(refinancedTotalInterest)))
  }

  /**
   * Past the rate guard the new rate is always strictly lower than the old one and at least
   * 3.8%, so the second guard never fires.
   */
  lemma RefinanceRateLower(annualRate: real)
    requires annualRate > Tier1AvgRate
    ensures Tier1AvgRate <= RefinanceRate(annualRate) < annualRate
  {
  }

  /**
   * When the guards pass and a balance is left after month 12, the estimate compares the
   * original total interest against the first 12 months' interest plus the total interest of
   * an equal-installments loan of that balance, at the new rate, over the months left, with no
   * grace period and no events; that loan is valid and ends fully repaid. An estimate is given
   * exactly when the unrounded saving is positive, and its figures are those amounts rounded.
   */
  lemma RefinanceEstimateFacts(d: LoanData, original: CalculationResult)
    requires RefinanceApplies(d, original)
    requires original.schedule[RefinanceMonth - 1].remainingPrincipal > 0.0
    ensures
      var loan := RefinancedLoan(d, original.schedule[RefinanceMonth - 1].remainingPrincipal,
                                 RefinanceRate(d.annualRate));
      && Valid(loan)
      && loan.annualRate < d.annualRate
      && EqualInstallments.ScheduleOf(loan).schedule[loan.loanTermMonths - 1].remainingPrincipal == 0.0
      && var refinancedTotalInterest :=
           SumInterest(original.schedule[..RefinanceMonth]) + EqualInstallments.ScheduleOf(loan).totalInterest;
         var savings := original.totalInterest - refinancedTotalInterest;
         && (RefinanceSavings(d, original).Some? <==> savings > 0.0)
         && (savings > 0.0 ==>
               RefinanceSavings(d, original).value
                 == RefinanceEstimate(Round(savings), Round(original.totalInterest), Round(refinancedTotalInterest)))
  {
    var loan := RefinancedLoan(d, original.schedule[RefinanceMonth - 1].remainingPrincipal,
                               RefinanceRate(d.annualRate));
    RefinanceRateLower(d.annualRate);
    assert Valid(loan);
    assert NoEventWithinTerm(loan);
    NoScheduledEvent(loan, loan.loanTermMonths);
    EqualInstallments.RepaidAtMaturity(loan);
  }

  // ---------------------------------------------------------------------------
  // The repayment rows of the form
  // ---------------------------------------------------------------------------

  /**
   * One entry of the submitted form. A `repaymentRound_<index>` entry carries its parsed round
   * and the parsed `repaymentAmount_<index>` and `newRate_<index>` fields (None when the field
   * is missing or empty); every other field is `OtherField`.
   */
  datatype FormEntry =
    | RepaymentRound(index: string, round: Parsed<int>, amount: Option<Parsed<real>>, newRate: Option<Parsed<real>>)
    | OtherField

  /** A parsed optional field holding a number that satisfies `ok`. */
  predicate NumberWith(x: Option<Parsed<real>>, ok: real -> bool) {
    x.Some? && x.value.Number? && ok(x.value.value)
  }

  /**
   * The event one form entry contributes, if any: it comes from a round entry with an index and
   * keeps that entry's round, which is not 0; it carries a positive amount or a new rate that is
   * not negative, and at least one of the two.
   */
  function EventOf(entry: FormEntry): (r: Option<RepaymentEvent>)
    ensures r.Some? ==>
      && entry.RepaymentRound? && entry.index != "" && entry.round.Number?
      && r.value.round == entry.round.value && r.value.round != 0
    ensures r.Some? ==>
      && (r.value.amount.Some? || r.value.newRate.Some?)
      && (r.value.amount.Some? ==> r.value.amount.value > 0.0)
      && (r.value.newRate.Some? ==> r.value.newRate.value >= 0.0)
  {
    if entry.OtherField? || entry.index == "" || !(entry.round.Number? && entry.round.value != 0) then None
    else
      var amount := if NumberWith(entry.amount, x => x > 0.0) then Some(entry.amount.value.value * WonPerFormUnit) else None;
      var newRate := if NumberWith(entry.newRate, x => x >= 0.0) then Some(entry.newRate.value.value) else None;
      if Truthy(amount) || newRate.Some? then Some(RepaymentEvent(entry.round.value, amount, newRate)) else None
  }

  /** The events of the form's entries, in form order. */
  function CollectedEvents(entries: seq<FormEntry>): seq<RepaymentEvent> {
    if entries == [] then []
    else
      var last := EventOf(entries[|entries| - 1]);
      CollectedEvents(entries[..|entries| - 1]) + (if last.Some? then [last.value] else [])
  }

  /** The loop over the form entries that builds `repayments`. */
  method CollectRepayments(entries: seq<FormEntry>) returns (repayments: seq<RepaymentEvent>)
    ensures repayments == CollectedEvents(entries)
  {
    repayments := [];
    for i := 0 to |entries|
      invariant repayments == CollectedEvents(entries[..i])
    {
      assert entries[..i + 1][..i] == entries[..i];
      var entry := entries[i];
      if entry.RepaymentRound? && entry.index != "" {
        var round := entry.round;
        if round.Number? && round.value != 0 {
          var amount: Option<real> := None;
          var newRate: Option<real> := None;
          if entry.amount.Some? && entry.amount.value.Number? && entry.amount.value.value > 0.0 {
            amount := Some(entry.amount.value.value * WonPerFormUnit);
          }
          if entry.newRate.Some? && entry.newRate.value.Number? && entry.newRate.value.value >= 0.0 {
            newRate := Some(entry.newRate.value.value);
          }
          if Truthy(amount) || newRate.Some? {
            repayments := repayments + [RepaymentEvent(round.value, amount, newRate)];
          }
        }
      }
    }
    assert entries[..|entries|] == entries;
  }

  /**
   * Every collected event has a non-zero round and an amount or a new rate; an amount is
   * positive (the form value times 10,000) and a new rate is at least 0.
   */
  lemma {:induction false} CollectedEventsShape(entries: seq<FormEntry>)
    ensures forall e :: e in CollectedEvents(entries) ==>
      e.round != 0
      && (e.amount.Some? || e.newRate.Some?)
      && (e.amount.Some? ==> e.amount.value > 0.0)
      && (e.newRate.Some? ==> e.newRate.value >= 0.0)
  {
    if entries != [] {
      CollectedEventsShape(entries[..|entries| - 1]);
    }
  }

  /**
   * The filter: an entry yields an event exactly when it is a round entry with a non-empty
   * index, a non-zero round, and a positive amount or a new rate of at least 0 (0 included).
   * The event's amount is the form amount times 10,000 when positive, and absent otherwise.
   */
  lemma FilterRule(entry: FormEntry)
    ensures EventOf(entry).Some? <==>
      && entry.RepaymentRound? && entry.index != "" && entry.round.Number? && entry.round.value != 0
      && (NumberWith(entry.amount, x => x > 0.0) || NumberWith(entry.newRate, x => x >= 0.0))
    ensures EventOf(entry).Some? ==>
      && EventOf(entry).value.round == entry.round.value
      && EventOf(entry).value.amount
           == (if NumberWith(entry.amount, x => x > 0.0) then Some(entry.amount.value.value * WonPerFormUnit) else None)
      && EventOf(entry).value.newRate
           == (if NumberWith(entry.newRate, x => x >= 0.0) then Some(entry.newRate.value.value) else None)
  {
    if entry.RepaymentRound? && NumberWith(entry.amount, x => x > 0.0) {
      var a := entry.amount.value.value;
      assert a * WonPerFormUnit > 0.0;
    }
  }

  /**
   * The filter lets through events the schema refuses: the whole request fails on
   * `repayments` exactly when some collected event has a negative round or a new rate of 0.
   */
  lemma FilterThenSchema(entries: seq<FormEntry>)
    ensures ValidEvents(CollectedEvents(entries)) <==>
      forall e :: e in CollectedEvents(entries) ==>
        e.round > 0 && (e.newRate.Some? ==> e.newRate.value != 0.0)
  {
    CollectedEventsShape(entries);
  }

  /** A collected event with a new rate of 0 makes the schema refuse the request on `repayments`. */
  lemma SchemaRefusesZeroRate(input: LoanInput, k: nat)
    requires k < |input.repayments| && input.repayments[k].newRate == Some(0.0)
    ensures SafeParse(input).Failure? && Repayments in SafeParse(input).error
  {
    assert input.repayments[k] in input.repayments;
    assert !ValidEvent(input.repayments[k]);
  }

  /** Every event an entry yields is among the collected events. */
  lemma {:induction false} CollectedHasEvent(entries: seq<FormEntry>, j: nat)
    requires j < |entries| && EventOf(entries[j]).Some?
    ensures EventOf(entries[j]).value in CollectedEvents(entries)
  {
    if j < |entries| - 1 {
      CollectedHasEvent(entries[..|entries| - 1], j);
    }
  }

  /**
   * A row asking for a new rate of 0 passes the filter, which yields an event with that rate,
   * and the schema then refuses the request on `repayments`.
   */
  lemma ZeroRateRejected(input: LoanInput, entries: seq<FormEntry>, j: nat)
    requires input.repayments == CollectedEvents(entries)
    requires j < |entries| && entries[j].RepaymentRound? && entries[j].index != ""
    requires entries[j].round.Number? && entries[j].round.value != 0
    requires entries[j].newRate == Some(Number(0.0))
    ensures EventOf(entries[j]).Some? && EventOf(entries[j]).value.newRate == Some(0.0)
    ensures SafeParse(input).Failure? && Repayments in SafeParse(input).error
  {
    var e := EventOf(entries[j]);
    assert e.Some?;
    CollectedHasEvent(entries, j);
    assert !ValidEvent(e.value);
  }

  // ---------------------------------------------------------------------------
  // Assembling the result
  // ---------------------------------------------------------------------------

  /** The form as the action reads it, each field already parsed. */
  datatype FormInput = FormInput(
    principal: Parsed<real>,
    loanTermMonths: Parsed<int>,
    annualRate: Parsed<real>,
    gracePeriodMonths: Option<Parsed<int>>,
    entries: seq<FormEntry>)

  /** The object handed to the schema: principal in won, grace 0 when the field is missing or empty. */
  function SchemaInput(form: FormInput): LoanInput {
    LoanInput(
      if form.principal.Number? then Number(form.principal.value * WonPerFormUnit) else NaN,
      form.loanTermMonths,
      form.annualRate,
      if form.gracePeriodMonths.Some? then form.gracePeriodMonths.value else Number(0),
      CollectedEvents(form.entries))
  }

  datatype ScenarioResults = ScenarioResults(
    equalInstallments: CalculationResult,
    equalPrincipal: CalculationResult,
    bullet: CalculationResult,
    annualRate: real,
    refinance: Option<RefinanceEstimate>)

  datatype AllScenariosResult = Failed(errors: set<Field>) | Computed(results: ScenarioResults)

  /**
   * calculateAllLoanScenarios: the field errors when the schema refuses the request;
   * otherwise the three schedules of the validated request, its annual rate, and a refinance
   * estimate exactly when one is computed from the equal-installments schedule.
   */
  method CalculateAllLoanScenarios(form: FormInput) returns (r: AllScenariosResult)
    ensures var parsed := SafeParse(SchemaInput(form));
      && (r.Failed? <==> parsed.Failure?)
      && (r.Failed? ==> r.errors == FieldErrors(SchemaInput(form)) && r.errors != {})
      && (r.Computed? ==>
            var data := parsed.value;
            && r.results.equalInstallments == EqualInstallments.ScheduleOf(data)
            && r.results.equalPrincipal == EqualPrincipal.ScheduleOf(data)
            && r.results.bullet == BulletPayment.ScheduleOf(data)
            && r.results.annualRate == data.annualRate
            && r.results.refinance == RefinanceSavings(data, EqualInstallments.ScheduleOf(data)))
  {
    var principal := if form.principal.Number? then Number(form.principal.value * WonPerFormUnit) else NaN;
    var gracePeriodMonths := if form.gracePeriodMonths.Some? then form.gracePeriodMonths.value else Number(0);
    var repayments := CollectRepayments(form.entries);
    var validatedFields :=
      SafeParse(LoanInput(principal, form.loanTermMonths, form.annualRate, gracePeriodMonths, repayments));
    if validatedFields.Failure? {
      return Failed(validatedFields.error);
    }
    var data := validatedFields.value;
    var equalInstallments := EqualInstallments.Calculate(data);
    var equalPrincipal := EqualPrincipal.Calculate(data);
    var bullet := BulletPayment.Calculate(data);
    var results := ScenarioResults(equalInstallments, equalPrincipal, bullet, data.annualRate, None);
    var refinanceInfo := RefinanceSavings(data, equalInstallments);
    if refinanceInfo.Some? {
      results := results.(refinance := refinanceInfo);
    }
    return Computed(results);
  }
}
