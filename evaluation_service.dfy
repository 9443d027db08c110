/** The behavioural-evaluation service: create, read, partial update and delete of
    the one evaluation attached to an employee. */
module EvaluationService {
  import opened Common
  import opened Uuids
  import opened Decimal
  import opened Records
  import opened Repository

  /** The response for an evaluation: the four stored scores and their mean,
      rounded half-up to two decimals. */
  function Respond(s: Scores): (v: EvaluationView)
    ensures v.behavioural == s.behavioural && v.learning == s.learning
    ensures v.decisionMaking == s.decisionMaking && v.autonomy == s.autonomy
    ensures IsHalfUpRounding(v.mean, Total(s), 4)
    ensures ScoresInRange(s) ==> InScoreRange(v.mean)
  {
    EvaluationView(s.behavioural, s.learning, s.decisionMaking, s.autonomy, EvaluationMean(s))
  }

  /** Creates the evaluation of an employee. The service itself does not look for an
      existing evaluation; the store's one-to-one mapping refuses a second one. */
  method Create(store: Store, matricula: string, scores: Scores) returns (r: Result<nat>)
    requires store.Valid() && ScoresInRange(scores)
    modifies store
    ensures store.Valid()
    ensures ParseUuid(matricula).None? ==> r == Err(BadUuid) && unchanged(store)
    ensures ParseUuid(matricula).Some? && ParseUuid(matricula).value !in old(store.employees) ==>
              r == Err(NotFound(EmployeeMissing)) && unchanged(store)
    ensures ParseUuid(matricula).Some? && ParseUuid(matricula).value in old(store.employees) ==>
              var m := ParseUuid(matricula).value;
              && (m in old(store.evaluations) ==>
                    r == Err(Generic(EvaluationAlreadyStored)) && store.evaluations == old(store.evaluations))
              && (m !in old(store.evaluations) ==>
                    && r.Ok?
                    && (forall m' :: m' in old(store.evaluations) ==> old(store.evaluations)[m'].id != r.value)
                    && store.evaluations == old(store.evaluations)[m := Evaluation(r.value, scores)]
                    && Get(store, matricula) == Ok(Respond(scores)))
              && store.employees == old(store.employees) && store.deliveries == old(store.deliveries)
              && store.order == old(store.order)
  {
    var parsed := ParseUuid(matricula);
    if parsed.None? {
      return Err(BadUuid);
    }
    var m := parsed.value;
    if m !in store.employees {
      return Err(NotFound(EmployeeMissing));
    }
    r := store.InsertEvaluation(m, scores);
  }

  /** Reads the evaluation of an employee. */
  function Get(store: Store, matricula: string): (r: Result<EvaluationView>)
    reads store
    requires store.Valid()
    ensures ParseUuid(matricula).None? ==> r == Err(BadUuid)
    ensures ParseUuid(matricula).Some? ==>
              var m := ParseUuid(matricula).value;
              && (m !in store.employees ==> r == Err(NotFound(EmployeeMissing)))
              && (m in store.employees && m !in store.evaluations ==> r == Err(NotFound(EvaluationMissing)))
              && (m in store.evaluations ==> r.Ok? && r.value == Respond(store.evaluations[m].scores))
    ensures r.Ok? ==> InScoreRange(r.value.mean)
  {
    match ParseUuid(matricula)
    case None => Err(BadUuid)
    case Some(m) =>
      if m !in store.employees then Err(NotFound(EmployeeMissing))
      else if m !in store.evaluations then Err(NotFound(EvaluationMissing))
      else Ok(Respond(store.evaluations[m].scores))
  }

  /** Overwrites the scores present in the request and keeps the others. */
  method Update(store: Store, matricula: string, p: ScoresPatch) returns (r: Result<()>)
    requires store.Valid() && ScoresPatchInRange(p)
    modifies store
    ensures store.Valid()
    ensures ParseUuid(matricula).None? ==> r == Err(BadUuid) && unchanged(store)
    ensures ParseUuid(matricula).Some? && ParseUuid(matricula).value !in old(store.employees) ==>
              r == Err(NotFound(EmployeeMissing)) && unchanged(store)
    ensures ParseUuid(matricula).Some? && ParseUuid(matricula).value in old(store.employees) &&
            ParseUuid(matricula).value !in old(store.evaluations) ==>
              r == Err(Business(NoEvaluationToUpdate(matricula))) && unchanged(store)
    ensures ParseUuid(matricula).Some? && ParseUuid(matricula).value in old(store.evaluations) ==>
              var m := ParseUuid(matricula).value;
              var was := old(store.evaluations)[m].scores;
              && r == Ok(())
              && m in store.evaluations
              && store.evaluations == old(store.evaluations)[m := store.evaluations[m]]
              && store.evaluations[m].id == old(store.evaluations)[m].id
              && store.evaluations[m].scores == Scores(
                   p.behavioural.GetOr(was.behavioural), p.learning.GetOr(was.learning),
                   p.decisionMaking.GetOr(was.decisionMaking), p.autonomy.GetOr(was.autonomy))
              && (p == ScoresPatch(None, None, None, None) ==> store.evaluations == old(store.evaluations))
              && Get(store, matricula) == Ok(Respond(store.evaluations[m].scores))
              && store.employees == old(store.employees) && store.deliveries == old(store.deliveries)
              && store.order == old(store.order)
  {
    var parsed := ParseUuid(matricula);
    if parsed.None? {
      return Err(BadUuid);
    }
    var m := parsed.value;
    if m !in store.employees {
      return Err(NotFound(EmployeeMissing));
    }
    if m !in store.evaluations {
      return Err(Business(NoEvaluationToUpdate(matricula)));
    }
    var scores := store.evaluations[m].scores;
    if p.behavioural.Some? {
      scores := scores.(behavioural := p.behavioural.value);
    }
    if p.learning.Some? {
      scores := scores.(learning := p.learning.value);
    }
    if p.decisionMaking.Some? {
      scores := scores.(decisionMaking := p.decisionMaking.value);
    }
    if p.autonomy.Some? {
      scores := scores.(autonomy := p.autonomy.value);
    }
    store.SaveEvaluation(m, scores);
    r := Ok(());
  }

  /** Deletes the evaluation of an employee: clearing the reference removes the
      orphaned row; an employee without an evaluation is left as it is. */
  method Delete(store: Store, matricula: string) returns (r: Result<()>)
    requires store.Valid()
    modifies store
    ensures store.Valid()
    ensures ParseUuid(matricula).None? ==> r == Err(BadUuid) && unchanged(store)
    ensures ParseUuid(matricula).Some? && ParseUuid(matricula).value !in old(store.employees) ==>
              r == Err(NotFound(EmployeeMissing)) && unchanged(store)
    ensures ParseUuid(matricula).Some? && ParseUuid(matricula).value in old(store.employees) ==>
              var m := ParseUuid(matricula).value;
              && r == Ok(())
              && store.evaluations == old(store.evaluations) - {m}
              && (m !in old(store.evaluations) ==> unchanged(store))
              && Get(store, matricula) == Err(NotFound(EvaluationMissing))
              && store.employees == old(store.employees) && store.deliveries == old(store.deliveries)
              && store.order == old(store.order)
  {
    var parsed := ParseUuid(matricula);
    if parsed.None? {
      return Err(BadUuid);
    }
    var m := parsed.value;
    if m !in store.employees {
      return Err(NotFound(EmployeeMissing));
    }
    if m in store.evaluations {
      store.RemoveEvaluation(m);
    } else {
      assert store.evaluations - {m} == store.evaluations by {
        assert forall k :: k in store.evaluations - {m} <==> k in store.evaluations;
      }
    }
    assert Get(store, matricula) == Err(NotFound(EvaluationMissing));
    r := Ok(());
  }
}
