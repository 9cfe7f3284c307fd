/**
 * The calculator's page state and its button handlers.
 *
 * The page keeps three things between clicks: the list of overdue
 * instalments of the multi-instalment tab and the last result of each tab
 * (shown again when the user switches back to it). Each handler reads the
 * text of its input fields, parses it as a Brazilian amount, runs the checks
 * in order, and on the first failure empties its tab's result; otherwise it
 * stores the new result. Field texts are parameters here, and a result is
 * kept as the computed values rather than as the HTML built from them.
 */
module NegotiationSession {
  import opened Wrappers
  import opened CurrencyText
  import opened Discount

  const InvalidInstalmentMsg := "Informe um valor válido para a mensalidade vencida."

  class Session {
    /** `listaMensalidades`: the overdue instalments, in the order they were added. */
    var instalments: seq<real>
    /** `resultadosNegociacao`: the last single-instalment result; `None` is the empty string. */
    var singleResult: Option<Negotiation>
    /** `resultadosMulti`: the last multi-instalment result; `None` is the empty string. */
    var multiResult: Option<MultiNegotiation>

    /** Only positive amounts ever enter the instalment list. */
    ghost predicate Valid()
      reads this
    {
      AllPositive(instalments)
    }

    /** The page as loaded: no instalments and no results. */
    constructor ()
      ensures Valid()
      ensures instalments == [] && singleResult == None && multiResult == None
    {
      instalments := [];
      singleResult := None;
      multiResult := None;
    }

    /**
     * `calcularBtn`: parses the three fields, then checks and negotiates.
     */
    method Calculate(courseText: string, currentText: string, overdueText: string)
      returns (outcome: Outcome<Negotiation>)
      requires Valid()
      modifies this
      ensures Valid()
      ensures outcome == NegotiateSingle(ParseBRL(courseText), ParseBRL(currentText), ParseBRL(overdueText))
      ensures singleResult == (if outcome.Ok? then Some(outcome.value) else None)
      ensures instalments == old(instalments) && multiResult == old(multiResult)
    {
      var course := ParseBRL(courseText);
      var current := ParseBRL(currentText);
      var overdue := ParseBRL(overdueText);
      outcome := CalculateParsed(course, current, overdue);
    }

    /**
     * The checks of `calcularBtn` in order on the parsed fields: the first
     * failure empties the single result; otherwise the new result is stored.
     * The instalment list and the multi result are untouched.
     */
    method CalculateParsed(course: Option<real>, current: Option<real>, overdue: Option<real>)
      returns (outcome: Outcome<Negotiation>)
      requires Valid()
      modifies this
      ensures Valid()
      ensures outcome == NegotiateSingle(course, current, overdue)
      ensures singleResult == (if outcome.Ok? then Some(outcome.value) else None)
      ensures outcome.Ok? ==> 0.0 < outcome.value.negotiatedAmount <= outcome.value.overdueInstalment
      ensures instalments == old(instalments) && multiResult == old(multiResult)
    {
      if course.None? || current.None? || overdue.None? {
        singleResult := None;
        return Err(FillAllMsg);
      }
      if course.value <= 0.0 || current.value <= 0.0 || overdue.value <= 0.0 {
        singleResult := None;
        return Err(NotPositiveMsg);
      }
      if current.value > course.value {
        singleResult := None;
        return Err(CurrentTooHighMsg);
      }
      var currentPct := (course.value - current.value) / course.value * 100.0;
      var reducedPct := currentPct - ReductionPoints;
      if reducedPct < 0.0 {
        reducedPct := 0.0;
      }
      var negotiated := overdue.value * (1.0 - reducedPct / 100.0);
      var result := Negotiation(currentPct, reducedPct, overdue.value, negotiated);
      assert currentPct == CurrentDiscountPct(course.value, current.value);
      assert reducedPct == ReducedDiscountPct(currentPct);
      assert negotiated == Discounted(overdue.value, reducedPct);
      assert result == Negotiate(course.value, current.value, overdue.value);
      SingleNegotiationBounds(course, current, overdue);
      singleResult := Some(result);
      return Ok(result);
    }

    /** `limparBtn`: empties the single result; the multi tab is untouched. */
    method ClearSingle()
      requires Valid()
      modifies this
      ensures Valid()
      ensures singleResult == None
      ensures instalments == old(instalments) && multiResult == old(multiResult)
    {
      singleResult := None;
    }

    /**
     * `adicionarMensalidadeBtn`: appends the parsed amount when it is a
     * positive number and otherwise leaves the list as it was. No result
     * changes.
     */
    method AddInstalment(text: string) returns (outcome: Outcome<real>)
      requires Valid()
      modifies this
      ensures Valid()
      ensures outcome.Ok? <==> ParseBRL(text).Some? && ParseBRL(text).value > 0.0
      ensures outcome.Ok? ==> ParseBRL(text) == Some(outcome.value)
      ensures outcome.Err? ==> outcome.msg == InvalidInstalmentMsg
      ensures instalments == if outcome.Ok? then old(instalments) + [outcome.value] else old(instalments)
      ensures outcome.Ok? ==> Sum(instalments) == Sum(old(instalments)) + outcome.value
      ensures singleResult == old(singleResult) && multiResult == old(multiResult)
    {
      var amount := ParseBRL(text);
      if amount.None? || amount.value <= 0.0 {
        return Err(InvalidInstalmentMsg);
      }
      SumAppend(instalments, amount.value);
      instalments := instalments + [amount.value];
      return Ok(amount.value);
    }

    /**
     * `removerMensalidade(idx)`: deletes the instalment at `idx` and keeps
     * the others in order. No result changes.
     */
    method RemoveInstalment(idx: nat)
      requires Valid() && idx < |instalments|
      modifies this
      ensures Valid()
      ensures |instalments| == |old(instalments)| - 1
      ensures forall j :: 0 <= j < idx ==> instalments[j] == old(instalments)[j]
      ensures forall j :: idx <= j < |instalments| ==> instalments[j] == old(instalments)[j + 1]
      ensures multiset(instalments) + multiset{old(instalments)[idx]} == multiset(old(instalments))
      ensures singleResult == old(singleResult) && multiResult == old(multiResult)
    {
      var before := instalments;
      instalments := instalments[..idx] + instalments[idx + 1..];
      assert before == before[..idx] + [before[idx]] + before[idx + 1..];
    }

    /**
     * `somarBtn`: parses the course value and the current instalment, then
     * checks and negotiates over the instalment list.
     */
    method SumAndNegotiate(courseText: string, currentText: string)
      returns (outcome: Outcome<MultiNegotiation>)
      requires Valid()
      modifies this
      ensures Valid()
      ensures outcome == NegotiateMulti(ParseBRL(courseText), ParseBRL(currentText), instalments)
      ensures multiResult == (if outcome.Ok? then Some(outcome.value) else None)
      ensures instalments == old(instalments) && singleResult == old(singleResult)
    {
      var course := ParseBRL(courseText);
      var current := ParseBRL(currentText);
      outcome := SumAndNegotiateParsed(course, current);
    }

    /**
     * The checks of `somarBtn` in order on the parsed fields and the list:
     * the first failure empties the multi result; otherwise the new result
     * is stored. Nothing else changes.
     */
    method SumAndNegotiateParsed(course: Option<real>, current: Option<real>)
      returns (outcome: Outcome<MultiNegotiation>)
      requires Valid()
      modifies this
      ensures Valid()
      ensures outcome == NegotiateMulti(course, current, instalments)
      ensures multiResult == (if outcome.Ok? then Some(outcome.value) else None)
      ensures outcome.Ok? ==>
        0.0 < outcome.value.negotiatedAmount <= instalments[0] && outcome.value.discountObtained >= 0.0
      ensures instalments == old(instalments) && singleResult == old(singleResult)
    {
      if course.None? || current.None? {
        multiResult := None;
        return Err(FillCourseAndCurrentMsg);
      }
      if course.value <= 0.0 || current.value <= 0.0 {
        multiResult := None;
        return Err(NotPositiveMsg);
      }
      if current.value > course.value {
        multiResult := None;
        return Err(CurrentTooHighMsg);
      }
      if |instalments| == 0 {
        multiResult := None;
        return Err(EmptyListMsg);
      }
      var currentPct := (course.value - current.value) / course.value * 100.0;
      var reducedPct := currentPct - ReductionPoints;
      if reducedPct < 0.0 {
        reducedPct := 0.0;
      }
      var total := Sum(instalments);
      var negotiated := instalments[0] * (1.0 - reducedPct / 100.0);
      var obtained := total - negotiated;
      var result := MultiNegotiation(total, negotiated, obtained);
      assert currentPct == CurrentDiscountPct(course.value, current.value);
      assert reducedPct == ReducedDiscountPct(currentPct);
      assert negotiated == Discounted(instalments[0], reducedPct);
      MultiNegotiationBounds(course, current, instalments);
      multiResult := Some(result);
      return Ok(result);
    }

    /** `limparMultiBtn`: empties the instalment list and the multi result. */
    method ClearMulti()
      modifies this
      ensures Valid()
      ensures instalments == [] && multiResult == None
      ensures singleResult == old(singleResult)
    {
      instalments := [];
      multiResult := None;
    }
  }
}
