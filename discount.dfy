/**
 * The negotiation rule of the calculator, over exact reals.
 *
 * The current discount is how far the current instalment lies below the
 * course value, in percent. The negotiation takes 20 percentage points off
 * that discount, never going below zero, and applies what is left to the
 * overdue instalment. In the multi-instalment mode the overdue instalments
 * are summed, but the reduced discount is applied to the first one only.
 * Inputs are checked in a fixed order and the first failing check decides
 * the message; `None` stands for an input that did not parse (`NaN`).
 */
module Discount {
  import opened Wrappers

  /** A computed result, or the message of the first check that failed. */
  datatype Outcome<T> = Ok(value: T) | Err(msg: string)

  /** The cards of a single-instalment negotiation. */
  datatype Negotiation = Negotiation(
    currentDiscountPct: real,   // descontoAtualPct
    reducedDiscountPct: real,   // descontoAposPerdaPct
    overdueInstalment: real,    // mensalidadeVencida
    negotiatedAmount: real)     // valorNegociado

  /** The cards of a multi-instalment negotiation. */
  datatype MultiNegotiation = MultiNegotiation(
    totalOverdue: real,         // totalAtraso
    negotiatedAmount: real,     // valorNegociado
    discountObtained: real)     // descontoObtido

  const FillAllMsg := "Preencha todos os valores corretamente."
  const FillCourseAndCurrentMsg := "Preencha o valor do curso e mensalidade atual."
  const NotPositiveMsg := "Os valores devem ser maiores que zero."
  const CurrentTooHighMsg := "A mensalidade atual não pode ser maior que o valor do curso."
  const EmptyListMsg := "Adicione ao menos uma mensalidade vencida."

  /** The percentage points the negotiation takes off the current discount. */
  const ReductionPoints: real := 20.0

  /**
   * `((valorCurso - mensalidadeAtual) / valorCurso) * 100`: the percentage
   * that, taken off the course value, leaves the current instalment. With
   * 0 < current <= course it lies in [0, 100).
   */
  function CurrentDiscountPct(course: real, current: real): (r: real)
    requires course != 0.0
    ensures Discounted(course, r) == current
    ensures 0.0 < current <= course ==> 0.0 <= r < 100.0
  {
    ShareOfCourse(course, current);
    (course - current) / course * 100.0
  }

  /** The share of the course value that the current instalment saves, and its range. */
  lemma ShareOfCourse(course: real, current: real)
    requires course != 0.0
    ensures (1.0 - (course - current) / course) * course == current
    ensures 0.0 < current <= course ==> 0.0 <= (course - current) / course < 1.0
  {
    var q := (course - current) / course;
    assert q * course == course - current;
    assert (1.0 - q) * course == current;
    if 0.0 < current <= course {
      SavedShareInRange(course, current);
    }
  }

  lemma SavedShareInRange(course: real, current: real)
    requires 0.0 < current <= course
    ensures 0.0 <= (course - current) / course < 1.0
  {
    var q := (course - current) / course;
    assert q * course == course - current;
    assert (1.0 - q) * course == current;
  }

  /** The current discount less 20 points, floored at zero: the larger of 0 and `pct - 20`. */
  function ReducedDiscountPct(pct: real): (r: real)
    ensures r >= 0.0 && r >= pct - ReductionPoints
    ensures r == 0.0 || r == pct - ReductionPoints
  {
    if pct - ReductionPoints < 0.0 then 0.0 else pct - ReductionPoints
  }

  /**
   * `amount * (1 - pct / 100)`: a discount in [0, 100) keeps a positive
   * amount positive and never raises it; no discount leaves it as it is.
   */
  function Discounted(amount: real, pct: real): (r: real)
    ensures 0.0 < amount && 0.0 <= pct < 100.0 ==> 0.0 < r <= amount
    ensures pct == 0.0 ==> r == amount
  {
    var f := 1.0 - pct / 100.0;
    assert 0.0 < amount && 0.0 <= pct < 100.0 ==> 0.0 < f <= 1.0 && amount * f <= amount * 1.0;
    amount * f
  }

  /** `reduce((a, b) => a + b, 0)`: the left fold of addition from zero; positive instalments have a positive sum. */
  function Sum(s: seq<real>): (r: real)
    ensures AllPositive(s) ==> r >= 0.0 && (s != [] ==> r > 0.0)
  {
    if s == [] then 0.0 else Sum(s[..|s| - 1]) + s[|s| - 1]
  }

  predicate AllPositive(s: seq<real>) {
    forall i :: 0 <= i < |s| ==> s[i] > 0.0
  }

  /** Both values parsed, both positive, and the current instalment not above the course value. */
  predicate ValidCourseAndCurrent(course: Option<real>, current: Option<real>) {
    course.Some? && current.Some? && 0.0 < course.value && 0.0 < current.value
    && current.value <= course.value
  }

  /**
   * The single-instalment computation, once every check has passed: with
   * 0 < current <= course and a positive overdue instalment, the reduced
   * discount lies between zero and the current one, which lies below 100,
   * and the negotiated amount in (0, overdue].
   */
  function Negotiate(course: real, current: real, overdue: real): (r: Negotiation)
    requires course != 0.0
    ensures r.overdueInstalment == overdue
    ensures 0.0 < current <= course && 0.0 < overdue ==>
      0.0 <= r.reducedDiscountPct <= r.currentDiscountPct < 100.0
      && 0.0 < r.negotiatedAmount <= overdue
  {
    var currentPct := CurrentDiscountPct(course, current);
    var reducedPct := ReducedDiscountPct(currentPct);
    Negotiation(currentPct, reducedPct, overdue, Discounted(overdue, reducedPct))
  }

  /**
   * The `calcularBtn` handler on parsed inputs: the checks for `NaN`, for
   * non-positive values and for a current instalment above the course value,
   * in that order, then the computation.
   */
  function NegotiateSingle(course: Option<real>, current: Option<real>, overdue: Option<real>)
    : (r: Outcome<Negotiation>)
    ensures r.Ok? <==> ValidCourseAndCurrent(course, current) && overdue.Some? && 0.0 < overdue.value
    ensures course.None? || current.None? || overdue.None? ==> r == Err(FillAllMsg)
    ensures course.Some? && current.Some? && overdue.Some? ==>
      (r == Err(NotPositiveMsg) <==> course.value <= 0.0 || current.value <= 0.0 || overdue.value <= 0.0)
    ensures r == Err(CurrentTooHighMsg) <==>
      course.Some? && current.Some? && overdue.Some?
      && 0.0 < course.value && 0.0 < current.value && 0.0 < overdue.value
      && current.value > course.value
    ensures r.Ok? ==> r.value.overdueInstalment == overdue.value
  {
    if course.None? || current.None? || overdue.None? then Err(FillAllMsg)
    else if course.value <= 0.0 || current.value <= 0.0 || overdue.value <= 0.0 then Err(NotPositiveMsg)
    else if current.value > course.value then Err(CurrentTooHighMsg)
    else Ok(Negotiate(course.value, current.value, overdue.value))
  }

  /**
   * The `somarBtn` handler on parsed inputs and the instalment list: the
   * same checks on the course value and the current instalment, then the
   * check for an empty list, then the computation.
   */
  function NegotiateMulti(course: Option<real>, current: Option<real>, overdue: seq<real>)
    : (r: Outcome<MultiNegotiation>)
    ensures r.Ok? <==> ValidCourseAndCurrent(course, current) && |overdue| > 0
    ensures course.None? || current.None? ==> r == Err(FillCourseAndCurrentMsg)
    ensures course.Some? && current.Some? ==>
      (r == Err(NotPositiveMsg) <==> course.value <= 0.0 || current.value <= 0.0)
    ensures r == Err(CurrentTooHighMsg) <==>
      course.Some? && current.Some? && 0.0 < course.value && 0.0 < current.value
      && current.value > course.value
    ensures r == Err(EmptyListMsg) <==> ValidCourseAndCurrent(course, current) && overdue == []
    ensures r.Ok? ==> r.value.totalOverdue == Sum(overdue)
    ensures r.Ok? ==> r.value.discountObtained == r.value.totalOverdue - r.value.negotiatedAmount
  {
    if course.None? || current.None? then Err(FillCourseAndCurrentMsg)
    else if course.value <= 0.0 || current.value <= 0.0 then Err(NotPositiveMsg)
    else if current.value > course.value then Err(CurrentTooHighMsg)
    else if |overdue| == 0 then Err(EmptyListMsg)
    else
      var reducedPct := ReducedDiscountPct(CurrentDiscountPct(course.value, current.value));
      var total := Sum(overdue);
      var negotiated := Discounted(overdue[0], reducedPct);
      Ok(MultiNegotiation(total, negotiated, total - negotiated))
  }

  // ------------------------------------------------------------------ lemmas

  /**
   * A successful single negotiation: the current discount lies in [0, 100),
   * the reduced one is the current less 20 points floored at zero, and the
   * negotiated amount lies in (0, overdue instalment].
   */
  lemma SingleNegotiationBounds(course: Option<real>, current: Option<real>, overdue: Option<real>)
    requires NegotiateSingle(course, current, overdue).Ok?
    ensures var n := NegotiateSingle(course, current, overdue).value;
      0.0 <= n.currentDiscountPct < 100.0
      && 0.0 <= n.reducedDiscountPct <= n.currentDiscountPct
      && n.reducedDiscountPct == (if n.currentDiscountPct <= ReductionPoints then 0.0
                                  else n.currentDiscountPct - ReductionPoints)
      && 0.0 < n.negotiatedAmount <= overdue.value
  {
  }

  /** The list's sum adds each appended instalment to the sum before it. */
  lemma SumAppend(s: seq<real>, x: real)
    ensures Sum(s + [x]) == Sum(s) + x
  {
    assert (s + [x])[..|s|] == s;
  }

  /** A list of positive instalments sums to at least its first one, and strictly more when it has others. */
  lemma {:induction false} SumAtLeastFirst(s: seq<real>)
    requires |s| > 0 && AllPositive(s)
    ensures Sum(s) >= s[0]
    ensures |s| > 1 ==> Sum(s) > s[0]
  {
    if |s| > 1 {
      var init := s[..|s| - 1];
      assert init[0] == s[0];
      SumAtLeastFirst(init);
    } else {
      assert s[..0] == [];
    }
  }

  /**
   * A successful multi negotiation over positive instalments: the total is
   * at least the first instalment, the negotiated amount lies in (0, first
   * instalment], and the discount obtained is never negative.
   */
  lemma MultiNegotiationBounds(course: Option<real>, current: Option<real>, overdue: seq<real>)
    requires NegotiateMulti(course, current, overdue).Ok? && AllPositive(overdue)
    ensures var m := NegotiateMulti(course, current, overdue).value;
      m.totalOverdue >= overdue[0]
      && 0.0 < m.negotiatedAmount <= overdue[0]
      && m.discountObtained >= 0.0
  {
    SumAtLeastFirst(overdue);
  }

  /**
   * The multi mode negotiates its first instalment exactly as the single
   * mode would: it succeeds on the same inputs, gives the same negotiated
   * amount, and counts every other instalment as discount obtained.
   */
  lemma MultiNegotiatesFirstAsSingle(course: Option<real>, current: Option<real>, overdue: seq<real>)
    requires |overdue| > 0 && overdue[0] > 0.0
    ensures NegotiateMulti(course, current, overdue).Ok? <==> NegotiateSingle(course, current, Some(overdue[0])).Ok?
    ensures NegotiateMulti(course, current, overdue).Ok? ==>
      var m, n := NegotiateMulti(course, current, overdue).value, NegotiateSingle(course, current, Some(overdue[0])).value;
      m.negotiatedAmount == n.negotiatedAmount
      && m.discountObtained == Sum(overdue[1..]) + (overdue[0] - n.negotiatedAmount)
  {
    if NegotiateMulti(course, current, overdue).Ok? {
      SumFirstAndRest(overdue);
    }
  }

  /** The left fold equals the first instalment plus the fold of the rest. */
  lemma {:induction false} SumFirstAndRest(s: seq<real>)
    requires |s| > 0
    ensures Sum(s) == s[0] + Sum(s[1..])
  {
    if |s| > 1 {
      var init := s[..|s| - 1];
      SumFirstAndRest(init);
      assert init[1..] == s[1..][..|s[1..]| - 1];
      assert s[1..][|s[1..]| - 1] == s[|s| - 1];
    } else {
      assert s[..0] == [] && s[1..] == [];
    }
  }

  /** The pre-filled example: course 1000, current 800, overdue 850. */
  lemma SingleExample()
    ensures NegotiateSingle(Some(1000.0), Some(800.0), Some(850.0)) == Ok(Negotiation(20.0, 0.0, 850.0, 850.0))
  {
  }

  /** The pre-filled example in the multi mode, with a second instalment of 300. */
  lemma MultiExample()
    ensures NegotiateMulti(Some(1000.0), Some(800.0), [850.0, 300.0]) == Ok(MultiNegotiation(1150.0, 850.0, 300.0))
  {
    assert [850.0, 300.0][..1] == [850.0];
    assert [850.0][..0] == [];
  }
}
