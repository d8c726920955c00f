/**
 * The data model, the input schema and the pieces of the monthly loop that the three
 * repayment calculators share: looking up the event of a month (after a stable sort of
 * the events by round), applying its prepayment and rate change, and the running ledger
 * (balance, annual rate, accumulated interest and the schedule built so far).
 * Money and rates are exact reals; rates are annual percentages.
 */
module LoanLogic {
  import opened Wrappers

  /** A scheduled prepayment and/or rate change that takes effect in month `round`. */
  datatype RepaymentEvent = RepaymentEvent(round: int, amount: Option<real>, newRate: Option<real>)

  /** A loan request as the calculators receive it. */
  datatype LoanData = LoanData(
    principal: real,
    loanTermMonths: int,
    annualRate: real,
    gracePeriodMonths: int,
    repayments: seq<RepaymentEvent>)

  /** One row of a repayment schedule. */
  datatype ScheduleEntry = ScheduleEntry(
    month: int,
    principalPayment: real,
    interestPayment: real,
    totalPayment: real,
    remainingPrincipal: real)

  datatype CalculationResult = CalculationResult(
    totalInterest: real,
    totalPaid: real,
    schedule: seq<ScheduleEntry>)

  // ---------------------------------------------------------------------------
  // The input schema
  // ---------------------------------------------------------------------------

  /** What parseFloat/parseInt yields for a form field: a number, or NaN. */
  datatype Parsed<T> = NaN | Number(value: T)

  /** The object handed to the schema, before it is known to be well formed. */
  datatype LoanInput = LoanInput(
    principal: Parsed<real>,
    loanTermMonths: Parsed<int>,
    annualRate: Parsed<real>,
    gracePeriodMonths: Parsed<int>,
    repayments: seq<RepaymentEvent>)

  /** The fields a validation error can be reported against. */
  datatype Field = Principal | LoanTermMonths | AnnualRate | GracePeriodMonths | Repayments

  predicate PositivePrincipal(p: real) { p > 0.0 }
  predicate PositiveTerm(n: int) { n > 0 }
  predicate PositiveRate(r: real) { r > 0.0 }
  predicate NonNegativeGrace(g: int) { g >= 0 }

  /** An event passes the schema when its round is positive and each present amount or rate is positive. */
  predicate ValidEvent(e: RepaymentEvent) {
    e.round > 0
    && (e.amount.Some? ==> e.amount.value > 0.0)
    && (e.newRate.Some? ==> e.newRate.value > 0.0)
  }

  predicate ValidEvents(events: seq<RepaymentEvent>) {
    forall e :: e in events ==> ValidEvent(e)
  }

  /** A request the schema accepts. */
  predicate Valid(d: LoanData) {
    PositivePrincipal(d.principal)
    && PositiveTerm(d.loanTermMonths)
    && PositiveRate(d.annualRate)
    && NonNegativeGrace(d.gracePeriodMonths)
    && ValidEvents(d.repayments)
  }

  /** The fields the schema reports errors for; NaN fails every numeric check. */
  function FieldErrors(input: LoanInput): set<Field> {
    (if input.principal.Number? && PositivePrincipal(input.principal.value) then {} else {Principal})
    + (if input.loanTermMonths.Number? && PositiveTerm(input.loanTermMonths.value) then {} else {LoanTermMonths})
    + (if input.annualRate.Number? && PositiveRate(input.annualRate.value) then {} else {AnnualRate})
    + (if input.gracePeriodMonths.Number? && NonNegativeGrace(input.gracePeriodMonths.value) then {} else {GracePeriodMonths})
    + (if ValidEvents(input.repayments) then {} else {Repayments})
  }

  /** LoanSchema.safeParse: the typed request, or the set of fields in error. */
  function SafeParse(input: LoanInput): (r: Result<LoanData, set<Field>>)
    ensures r.Success? <==> FieldErrors(input) == {}
    ensures r.Success? ==>
      Valid(r.value)
      && input.principal == Number(r.value.principal)
      && input.loanTermMonths == Number(r.value.loanTermMonths)
      && input.annualRate == Number(r.value.annualRate)
      && input.gracePeriodMonths == Number(r.value.gracePeriodMonths)
      && input.repayments == r.value.repayments
    ensures r.Failure? ==> r.error == FieldErrors(input) && r.error != {}
  {
    var errors := FieldErrors(input);
    if errors == {} then
      assert Principal !in errors && LoanTermMonths !in errors && AnnualRate !in errors;
      assert GracePeriodMonths !in errors && Repayments !in errors;
      Success(LoanData(input.principal.value, input.loanTermMonths.value, input.annualRate.value,
                       input.gracePeriodMonths.value, input.repayments))
    else
      Failure(errors)
  }

  /** The schema accepts exactly the inputs whose fields are all numbers forming a valid request. */
  lemma SchemaAcceptsExactly(input: LoanInput)
    ensures SafeParse(input).Success? <==>
      (input.principal.Number? && input.loanTermMonths.Number? && input.annualRate.Number?
       && input.gracePeriodMonths.Number?
       && Valid(LoanData(input.principal.value, input.loanTermMonths.value, input.annualRate.value,
                         input.gracePeriodMonths.value, input.repayments)))
  {
    var errors := FieldErrors(input);
    if errors == {} {
      assert Principal !in errors && LoanTermMonths !in errors && AnnualRate !in errors;
      assert GracePeriodMonths !in errors && Repayments !in errors;
    }
  }

  // ---------------------------------------------------------------------------
  // Events: stable sort by round, lookup of a month's event, and their effect
  // ---------------------------------------------------------------------------

  predicate SortedByRound(events: seq<RepaymentEvent>) {
    forall i, j :: 0 <= i < j < |events| ==> events[i].round <= events[j].round
  }

  /** Puts `e` in front of the first event whose round is not smaller than its own. */
  function InsertByRound(e: RepaymentEvent, events: seq<RepaymentEvent>): seq<RepaymentEvent> {
    if events == [] then [e]
    else if e.round <= events[0].round then [e] + events
    else [events[0]] + InsertByRound(e, events[1..])
  }

  lemma {:induction false} InsertKeepsEvents(e: RepaymentEvent, events: seq<RepaymentEvent>)
    ensures multiset(InsertByRound(e, events)) == multiset(events) + multiset{e}
  {
    if events != [] && e.round > events[0].round {
      InsertKeepsEvents(e, events[1..]);
      assert events == [events[0]] + events[1..];
    }
  }

  lemma ConsSorted(x: RepaymentEvent, events: seq<RepaymentEvent>)
    requires SortedByRound(events)
    requires forall y :: y in events ==> x.round <= y.round
    ensures SortedByRound([x] + events)
  {
    var r := [x] + events;
    forall i, j | 0 <= i < j < |r|
      ensures r[i].round <= r[j].round
    {
      assert r[j] == events[j - 1];
      if i > 0 {
        assert r[i] == events[i - 1];
      }
    }
  }

  lemma {:induction false} InsertKeepsSorted(e: RepaymentEvent, events: seq<RepaymentEvent>)
    requires SortedByRound(events)
    ensures SortedByRound(InsertByRound(e, events))
  {
    if events == [] {
      ConsSorted(e, []);
    } else if e.round <= events[0].round {
      ConsSorted(e, events);
    } else {
      var tail := events[1..];
      var rest := InsertByRound(e, tail);
      InsertKeepsSorted(e, tail);
      InsertKeepsEvents(e, tail);
      forall y | y in rest
        ensures events[0].round <= y.round
      {
        assert y in multiset(rest);
        if y != e {
          assert y in multiset(tail);
        }
      }
      ConsSorted(events[0], rest);
    }
  }

  /** The stable sort by round that the calculators apply to the events before the loop. */
  function SortByRound(events: seq<RepaymentEvent>): seq<RepaymentEvent> {
    if events == [] then [] else InsertByRound(events[0], SortByRound(events[1..]))
  }

  /** The sort returns the same events, ordered by round. */
  lemma {:induction false} SortByRoundSorts(events: seq<RepaymentEvent>)
    ensures multiset(SortByRound(events)) == multiset(events)
    ensures SortedByRound(SortByRound(events))
  {
    if events != [] {
      SortByRoundSorts(events[1..]);
      InsertKeepsEvents(events[0], SortByRound(events[1..]));
      InsertKeepsSorted(events[0], SortByRound(events[1..]));
      assert events == [events[0]] + events[1..];
    }
  }

  /** The index of the first event of `month`, or |events| when there is none. */
  function FirstOfRound(events: seq<RepaymentEvent>, month: int): (k: nat)
    ensures k <= |events|
    ensures forall j :: 0 <= j < k ==> events[j].round != month
    ensures k < |events| ==> events[k].round == month
  {
    if events == [] then 0
    else if events[0].round == month then 0
    else 1 + FirstOfRound(events[1..], month)
  }

  /** `find`: the first event whose round is `month`. */
  function EventAt(events: seq<RepaymentEvent>, month: int): Option<RepaymentEvent> {
    var k := FirstOfRound(events, month);
    if k < |events| then Some(events[k]) else None
  }

  lemma LookupCons(x: RepaymentEvent, events: seq<RepaymentEvent>, month: int)
    ensures EventAt([x] + events, month) == if x.round == month then Some(x) else EventAt(events, month)
  {
    assert ([x] + events)[1..] == events;
  }

  lemma {:induction false} InsertKeepsLookup(e: RepaymentEvent, events: seq<RepaymentEvent>, month: int)
    ensures EventAt(InsertByRound(e, events), month) == if e.round == month then Some(e) else EventAt(events, month)
  {
    if events == [] {
      LookupCons(e, [], month);
    } else if e.round <= events[0].round {
      LookupCons(e, events, month);
    } else {
      // Every event passed over is earlier than `e`, so it cannot be in `month` if `e` is.
      InsertKeepsLookup(e, events[1..], month);
      LookupCons(events[0], InsertByRound(e, events[1..]), month);
      LookupCons(events[0], events[1..], month);
      assert events == [events[0]] + events[1..];
    }
  }

  /** Sorting is stable: the first event of a month in sorted order is its first in input order. */
  lemma {:induction false} SortKeepsLookup(events: seq<RepaymentEvent>, month: int)
    ensures EventAt(SortByRound(events), month) == EventAt(events, month)
  {
    if events != [] {
      SortKeepsLookup(events[1..], month);
      InsertKeepsLookup(events[0], SortByRound(events[1..]), month);
    }
  }

  /**
   * The event the loop applies in `month`: the first event of that round in input order.
   * The calculators look it up in the sorted copy; SortKeepsLookup shows that is the same.
   */
  function ScheduledEvent(d: LoanData, month: int): Option<RepaymentEvent> {
    EventAt(d.repayments, month)
  }

  /** A month's event is one of the request's events, of that round, and exists iff one has that round. */
  lemma ScheduledEventFacts(d: LoanData, month: int)
    ensures var r := ScheduledEvent(d, month);
      && (r.Some? ==> r.value in d.repayments && r.value.round == month)
      && (r.None? <==> forall j :: 0 <= j < |d.repayments| ==> d.repayments[j].round != month)
      && (ValidEvents(d.repayments) && r.Some? ==> ValidEvent(r.value))
  {
    var k := FirstOfRound(d.repayments, month);
    if k < |d.repayments| {
      assert d.repayments[k] in d.repayments;
    }
  }

  /** JavaScript truthiness of an optional number: present and non-zero. */
  predicate Truthy(x: Option<real>) {
    x.Some? && x.value != 0.0
  }

  /** The amount an event takes off the balance (zero when it carries none). */
  function Prepayment(event: Option<RepaymentEvent>): real {
    if event.Some? && Truthy(event.value.amount) then event.value.amount.value else 0.0
  }

  /** The annual rate in force once an event has been applied. */
  function RateAfter(event: Option<RepaymentEvent>, rate: real): (r: real)
    ensures rate > 0.0 && (event.Some? ==> ValidEvent(event.value)) ==> r > 0.0
  {
    if event.Some? && Truthy(event.value.newRate) then event.value.newRate.value else rate
  }

  /** Total of the prepayments made in months 1..k. */
  function Prepaid(d: LoanData, k: nat): real {
    if k == 0 then 0.0 else Prepaid(d, k - 1) + Prepayment(ScheduledEvent(d, k))
  }

  /** No event falls in months 1..loanTermMonths. */
  predicate NoEventWithinTerm(d: LoanData) {
    forall e :: e in d.repayments ==> !(1 <= e.round <= d.loanTermMonths)
  }

  lemma NoScheduledEvent(d: LoanData, month: int)
    requires NoEventWithinTerm(d) && 1 <= month <= d.loanTermMonths
    ensures ScheduledEvent(d, month) == None
  {
    ScheduledEventFacts(d, month);
  }

  /** Without events in the term nothing is prepaid. */
  lemma {:induction false} PrepaidNothing(d: LoanData, k: nat)
    requires NoEventWithinTerm(d) && k <= d.loanTermMonths
    ensures Prepaid(d, k) == 0.0
  {
    if k > 0 {
      PrepaidNothing(d, k - 1);
      NoScheduledEvent(d, k);
    }
  }

  /**
   * Two requests with the same terms whose events agree in every month of the term: the
   * calculators cannot tell them apart.
   */
  predicate SameWithinTerm(d: LoanData, e: LoanData) {
    d.principal == e.principal
    && d.loanTermMonths == e.loanTermMonths
    && d.annualRate == e.annualRate
    && d.gracePeriodMonths == e.gracePeriodMonths
    && forall m :: 1 <= m <= d.loanTermMonths ==> ScheduledEvent(d, m) == ScheduledEvent(e, m)
  }

  /** The events whose round falls in months 1..n, in their original order. */
  function EventsWithin(events: seq<RepaymentEvent>, n: int): (r: seq<RepaymentEvent>)
    ensures forall x :: x in r ==> x in events && 1 <= x.round <= n
  {
    if events == [] then []
    else if 1 <= events[0].round <= n then [events[0]] + EventsWithin(events[1..], n)
    else EventsWithin(events[1..], n)
  }

  lemma {:induction false} EventsWithinLookup(events: seq<RepaymentEvent>, n: int, month: int)
    requires 1 <= month <= n
    ensures EventAt(EventsWithin(events, n), month) == EventAt(events, month)
  {
    if events != [] {
      EventsWithinLookup(events[1..], n, month);
      LookupCons(events[0], events[1..], month);
      assert events == [events[0]] + events[1..];
      if 1 <= events[0].round <= n {
        LookupCons(events[0], EventsWithin(events[1..], n), month);
      }
    }
  }

  /** Dropping the events that fall outside the term changes nothing the calculators see. */
  lemma DropLateEvents(d: LoanData)
    ensures var e := d.(repayments := EventsWithin(d.repayments, d.loanTermMonths));
      SameWithinTerm(d, e) && (Valid(d) ==> Valid(e))
  {
    var e := d.(repayments := EventsWithin(d.repayments, d.loanTermMonths));
    forall m | 1 <= m <= d.loanTermMonths
      ensures ScheduledEvent(d, m) == ScheduledEvent(e, m)
    {
      EventsWithinLookup(d.repayments, d.loanTermMonths, m);
    }
  }

  // ---------------------------------------------------------------------------
  // The running ledger of the monthly loop
  // ---------------------------------------------------------------------------

  /** `r / 100 / 12`: the monthly rate of an annual percentage. */
  function MonthlyRate(annualRate: real): real {
    annualRate / 100.0 / 12.0
  }

  /** A month's interest: the balance (after the month's prepayment) times the monthly rate. */
  function Interest(balance: real, annualRate: real): real {
    balance * MonthlyRate(annualRate)
  }

  /** The loop's `remainingPrincipal * monthlyRate`, with the monthly rate taken from `annualRate`. */
  lemma InterestAt(balance: real, monthlyRate: real, annualRate: real)
    requires monthlyRate == MonthlyRate(annualRate)
    ensures balance * monthlyRate == Interest(balance, annualRate)
  {
  }

  function Max(a: real, b: real): real { if a >= b then a else b }
  function Min(a: real, b: real): real { if a <= b then a else b }

  /**
   * The loop's working variables: the (unclamped) balance, the current annual rate, the
   * interest accumulated so far, the equal-principal basis `principalPaymentPerMonth`
   * (the other two methods carry it untouched) and the schedule built so far.
   */
  datatype Ledger = Ledger(balance: real, rate: real, totalInterest: real, basis: real, schedule: seq<ScheduleEntry>)

  /** `reduce` over the schedule's interest column, from the first month on. */
  function SumInterest(entries: seq<ScheduleEntry>): real {
    if entries == [] then 0.0
    else SumInterest(entries[..|entries| - 1]) + entries[|entries| - 1].interestPayment
  }

  function SumPrincipal(entries: seq<ScheduleEntry>): real {
    if entries == [] then 0.0
    else SumPrincipal(entries[..|entries| - 1]) + entries[|entries| - 1].principalPayment
  }

  /** A column of equal interest amounts sums to that amount times the number of entries. */
  lemma {:induction false} SumOfEqualInterest(entries: seq<ScheduleEntry>, x: real)
    requires forall k :: 0 <= k < |entries| ==> entries[k].interestPayment == x
    ensures SumInterest(entries) == x * |entries| as real
  {
    if entries != [] {
      var n := |entries|;
      SumOfEqualInterest(entries[..n - 1], x);
      assert x * n as real == x * (n - 1) as real + x;
    }
  }

  /** A result whose n entries all charge interest x has total interest x * n. */
  lemma TotalOfEqualInterest(r: CalculationResult, n: nat, x: real)
    requires |r.schedule| == n && r.totalInterest == SumInterest(r.schedule)
    requires forall k :: 0 <= k < n ==> r.schedule[k].interestPayment == x
    ensures r.totalInterest == x * n as real
  {
    SumOfEqualInterest(r.schedule, x);
  }

  lemma SumsAppend(entries: seq<ScheduleEntry>, e: ScheduleEntry)
    ensures SumInterest(entries + [e]) == SumInterest(entries) + e.interestPayment
    ensures SumPrincipal(entries + [e]) == SumPrincipal(entries) + e.principalPayment
  {
    assert (entries + [e])[..|entries|] == entries;
  }

  /** The first ledger of every calculator. */
  function Opening(d: LoanData, basis: real): Ledger {
    Ledger(d.principal, d.annualRate, 0.0, basis, [])
  }

  /**
   * The end of one pass of the loop: the principal paid comes off the balance, the interest is
   * added to the total, and the month's entry is appended, its payment being principal plus
   * interest and its reported balance the ledger balance clamped at zero.
   */
  function Post(s: Ledger, month: int, balance: real, rate: real, basis: real,
                principal: real, interest: real): Ledger {
    var remaining := balance - principal;
    var entry := ScheduleEntry(month, principal, interest, principal + interest, Max(0.0, remaining));
    Ledger(remaining, rate, s.totalInterest + interest, basis, s.schedule + [entry])
  }

  /** What the calculators return: `totalPaid = principal + totalInterest`. */
  function Finish(d: LoanData, s: Ledger): CalculationResult {
    CalculationResult(s.totalInterest, d.principal + s.totalInterest, s.schedule)
  }

  /**
   * What every calculator's ledger satisfies after k months: one entry per month numbered
   * from 1, a non-negative reported balance, each payment split into principal and interest,
   * the accumulated interest equal to the interest column's sum, and the balance equal to the
   * principal less the prepayments and the principal repaid.
   */
  predicate Books(d: LoanData, s: Ledger, k: nat) {
    |s.schedule| == k
    && (forall j :: 0 <= j < k ==>
          s.schedule[j].month == j + 1
          && s.schedule[j].remainingPrincipal >= 0.0
          && s.schedule[j].totalPayment == s.schedule[j].principalPayment + s.schedule[j].interestPayment)
    && s.totalInterest == SumInterest(s.schedule)
    && s.balance == d.principal - Prepaid(d, k) - SumPrincipal(s.schedule)
  }

  lemma OpeningBooks(d: LoanData, basis: real)
    ensures Books(d, Opening(d, basis), 0)
  {
  }

  /**
   * A month posted from the balance left after that month's prepayment keeps the books,
   * whatever principal and interest the calculator charges.
   */
  lemma PostBooks(d: LoanData, s: Ledger, k: nat, balance: real, rate: real, basis: real,
                  principal: real, interest: real)
    requires Books(d, s, k)
    requires balance == s.balance - Prepayment(ScheduledEvent(d, k + 1))
    ensures Books(d, Post(s, k + 1, balance, rate, basis, principal, interest), k + 1)
  {
    var t := Post(s, k + 1, balance, rate, basis, principal, interest);
    SumsAppend(s.schedule, t.schedule[k]);
  }

  /** The shape of every calculator's result. */
  predicate WellFormed(d: LoanData, r: CalculationResult) {
    |r.schedule| == d.loanTermMonths
    && (forall j :: 0 <= j < |r.schedule| ==>
          r.schedule[j].month == j + 1
          && r.schedule[j].remainingPrincipal >= 0.0
          && r.schedule[j].totalPayment == r.schedule[j].principalPayment + r.schedule[j].interestPayment)
    && r.totalInterest == SumInterest(r.schedule)
    && r.totalPaid == d.principal + r.totalInterest
  }

  lemma FinishWellFormed(d: LoanData, s: Ledger)
    requires d.loanTermMonths >= 0 && Books(d, s, d.loanTermMonths)
    ensures WellFormed(d, Finish(d, s))
  {
  }
}
