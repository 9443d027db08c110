/** The earlier employee service. Registration, lookup, listing, deletion, delivery
    handling and the performance calculation are the same as in the current service;
    it differs in the partial update, which covers only the name and the role, and
    in storing evaluation scores as whole points. */
module LegacyEmployeeService {
  import opened Common
  import opened Uuids
  import opened Decimal
  import opened Records
  import opened Repository

  /** Overwrites the name and the role when present in the request and saves; the
      admission date is never changed. */
  method Update(store: Store, matricula: string, p: LegacyEmployeePatch) returns (r: Result<()>)
    requires store.Valid()
    modifies store
    ensures store.Valid()
    ensures ParseUuid(matricula).None? ==> r == Err(BadUuid) && unchanged(store)
    ensures ParseUuid(matricula).Some? && ParseUuid(matricula).value !in old(store.employees) ==>
              r == Err(NotFound(EmployeeMissing)) && unchanged(store)
    ensures ParseUuid(matricula).Some? && ParseUuid(matricula).value in old(store.employees) ==>
              var m := ParseUuid(matricula).value;
              var was := old(store.employees)[m];
              && r == Ok(())
              && store.employees == old(store.employees)[m := Employee(
                   p.name.GetOr(was.name), was.admissionDate, p.role.GetOr(was.role), was.deliveries)]
              && store.employees[m].admissionDate == was.admissionDate
              && store.order == old(store.order)
              && store.evaluations == old(store.evaluations) && store.deliveries == old(store.deliveries)
  {
    var parsed := ParseUuid(matricula);
    if parsed.None? {
      return Err(BadUuid);
    }
    var m := parsed.value;
    if m !in store.employees {
      return Err(NotFound(EmployeeMissing));
    }
    var e := store.employees[m];
    if p.name.Some? {
      e := e.(name := p.name.value);
    }
    if p.role.Some? {
      e := e.(role := p.role.value);
    }
    store.SaveEmployee(m, e);
    r := Ok(());
  }

  /** Scores given in whole points, in hundredths. */
  function FromWholePoints(behavioural: nat, learning: nat, decisionMaking: nat, autonomy: nat): (s: Scores)
    ensures Total(s) == 100 * (behavioural + learning + decisionMaking + autonomy)
    ensures 1 <= behavioural <= 5 && 1 <= learning <= 5 && 1 <= decisionMaking <= 5 && 1 <= autonomy <= 5
            ==> ScoresInRange(s)
  {
    Scores(100 * behavioural, 100 * learning, 100 * decisionMaking, 100 * autonomy)
  }

  /** With whole-point scores the evaluation mean needs no rounding: it is a quarter
      of the sum exactly. */
  lemma WholePointsMeanIsExact(behavioural: nat, learning: nat, decisionMaking: nat, autonomy: nat)
    ensures var s := FromWholePoints(behavioural, learning, decisionMaking, autonomy);
            4 * EvaluationMean(s) == Total(s)
  {
    var k := behavioural + learning + decisionMaking + autonomy;
    RoundHalfUpExact(25 * k, 4);
    assert 25 * k * 4 == 100 * k;
  }
}
