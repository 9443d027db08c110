/** The employee service: registration, lookup, listing, deletion, partial update
    and the final-performance calculation. */
module EmployeeService {
  import opened Common
  import opened Uuids
  import opened Decimal
  import opened Records
  import opened Repository
  import EvaluationService
  import DeliveryService

  /** The response for a stored employee: its fields, the evaluation summary when an
      evaluation exists, and its deliveries in list order. */
  function View(store: Store, m: Uuid): (v: EmployeeView)
    reads store
    requires store.Valid() && m in store.employees
    ensures v.matricula == m
    ensures v.name == store.employees[m].name && v.role == store.employees[m].role
    ensures v.admissionDate == store.employees[m].admissionDate
    ensures v.evaluation.Some? <==> m in store.evaluations
    ensures v.evaluation.Some? ==>
              && v.evaluation.value == EvaluationService.Respond(store.evaluations[m].scores)
              && InScoreRange(v.evaluation.value.mean)
    ensures v.deliveries == DeliveryService.ViewsOf(store, m)
  {
    var e := store.employees[m];
    var summary := if m in store.evaluations then Some(EvaluationService.Respond(store.evaluations[m].scores)) else None;
    EmployeeView(m, e.name, e.admissionDate, e.role, summary, DeliveryService.ViewsOf(store, m))
  }

  /** Looks an employee up by its matricula text: an absent employee is an empty
      answer, not an error. */
  function Lookup(store: Store, matricula: string): (r: Result<Option<EmployeeView>>)
    reads store
    requires store.Valid()
    ensures r == Err(BadUuid) <==> ParseUuid(matricula).None?
    ensures r == Ok(None) <==> ParseUuid(matricula).Some? && ParseUuid(matricula).value !in store.employees
    ensures r.Ok? && r.value.Some? ==>
              r.value.value.matricula == ParseUuid(matricula).value && r.value.value == View(store, r.value.value.matricula)
  {
    match ParseUuid(matricula)
    case None => Err(BadUuid)
    case Some(m) => if m in store.employees then Ok(Some(View(store, m))) else Ok(None)
  }

  /** The responses for the employees ms, in the order of ms. */
  function ViewsIn(store: Store, ms: seq<Uuid>): (vs: seq<EmployeeView>)
    reads store
    requires store.Valid() && forall m :: m in ms ==> m in store.employees
    ensures |vs| == |ms|
    ensures forall i :: 0 <= i < |ms| ==> vs[i] == View(store, ms[i])
  {
    if ms == [] then [] else ViewsIn(store, ms[..|ms| - 1]) + [View(store, ms[|ms| - 1])]
  }

  /** Lists every stored employee once, in the order the store returns them. */
  function ListAll(store: Store): (vs: seq<EmployeeView>)
    reads store
    requires store.Valid()
    ensures |vs| == |store.employees|
    ensures forall m :: m in store.employees <==> exists i :: 0 <= i < |vs| && vs[i].matricula == m
    ensures forall i, j :: 0 <= i < j < |vs| ==> vs[i].matricula != vs[j].matricula
    ensures |vs| == |store.order| && forall i :: 0 <= i < |vs| ==> vs[i].matricula == store.order[i]
    ensures |vs| == |store.order| && forall i :: 0 <= i < |vs| ==> vs[i].matricula == store.order[i]
    ensures forall i :: 0 <= i < |vs| ==> Lookup(store, FormatUuid(vs[i].matricula)) == Ok(Some(vs[i]))
  {
    var vs := ViewsIn(store, store.order);
    ListedOnceEach(store, vs);
    ListedAsLookedUp(store, vs);
    vs
  }

  lemma ListedOnceEach(store: Store, vs: seq<EmployeeView>)
    requires store.Valid() && vs == ViewsIn(store, store.order)
    ensures |vs| == |store.employees|
    ensures forall m :: m in store.employees <==> exists i :: 0 <= i < |vs| && vs[i].matricula == m
    ensures forall i, j :: 0 <= i < j < |vs| ==> vs[i].matricula != vs[j].matricula
  {
    var ms := store.order;
    assert Distinct(ms) && forall m :: m in store.employees <==> m in ms;
    assert forall i :: 0 <= i < |vs| ==> vs[i].matricula == ms[i];
    DistinctKeysCount(ms, store.employees);
    forall m | m in store.employees ensures exists i :: 0 <= i < |vs| && vs[i].matricula == m {
      var i :| 0 <= i < |ms| && ms[i] == m;
      assert vs[i].matricula == m;
    }
  }

  lemma ListedAsLookedUp(store: Store, vs: seq<EmployeeView>)
    requires store.Valid() && vs == ViewsIn(store, store.order)
    ensures |vs| == |store.order| && forall i :: 0 <= i < |vs| ==> vs[i].matricula == store.order[i]
    ensures forall i :: 0 <= i < |vs| ==> Lookup(store, FormatUuid(vs[i].matricula)) == Ok(Some(vs[i]))
  {
    forall i | 0 <= i < |vs| ensures Lookup(store, FormatUuid(vs[i].matricula)) == Ok(Some(vs[i])) {
      ParseFormatRoundTrip(vs[i].matricula);
    }
  }

  /** A distinct list that holds exactly the keys of a map is as long as the map. */
  lemma {:induction false} DistinctKeysCount<V>(ms: seq<Uuid>, table: map<Uuid, V>)
    requires Distinct(ms)
    requires forall m :: m in table <==> m in ms
    ensures |ms| == |table|
  {
    if ms != [] {
      var last := ms[|ms| - 1];
      var rest := ms[..|ms| - 1];
      assert forall m :: m in rest <==> m in ms && m != last;
      DistinctKeysCount(rest, table - {last});
    }
  }

  /** Registers an employee under a freshly generated matricula, with no evaluation
      and no deliveries. */
  method Register(store: Store, name: string, admissionDate: Date, role: string, generated: Uuid) returns (m: Uuid)
    requires store.Valid() && WellFormed(generated) && generated !in store.employees
    modifies store
    ensures store.Valid()
    ensures m == generated
    ensures store.employees == old(store.employees)[m := Employee(name, admissionDate, role, [])]
    ensures store.order == old(store.order) + [m]
    ensures store.evaluations == old(store.evaluations) && store.deliveries == old(store.deliveries)
    ensures Lookup(store, FormatUuid(m)) == Ok(Some(EmployeeView(m, name, admissionDate, role, None, [])))
  {
    m := generated;
    store.AddEmployee(m, name, admissionDate, role);
    ParseFormatRoundTrip(m);
  }

  /** Deletes an employee together with its evaluation and its deliveries. */
  method Delete(store: Store, matricula: string) returns (r: Result<()>)
    requires store.Valid()
    modifies store
    ensures store.Valid()
    ensures ParseUuid(matricula).None? ==> r == Err(BadUuid) && unchanged(store)
    ensures ParseUuid(matricula).Some? && ParseUuid(matricula).value !in old(store.employees) ==>
              r == Err(NotFound(EmployeeMissing)) && unchanged(store)
    ensures ParseUuid(matricula).Some? && ParseUuid(matricula).value in old(store.employees) ==>
              var m := ParseUuid(matricula).value;
              && r == Ok(())
              && store.employees == old(store.employees) - {m}
              && store.order == Without(old(store.order), m)
              && store.evaluations == old(store.evaluations) - {m}
              && (forall id :: id in store.deliveries <==> id in old(store.deliveries) && old(store.deliveries)[id].owner != m)
              && (forall id :: id in store.deliveries ==> store.deliveries[id] == old(store.deliveries)[id])
              && Lookup(store, matricula) == Ok(None)
  {
    var parsed := ParseUuid(matricula);
    if parsed.None? {
      return Err(BadUuid);
    }
    var m := parsed.value;
    if m !in store.employees {
      return Err(NotFound(EmployeeMissing));
    }
    store.RemoveEmployee(m);
    r := Ok(());
  }

  /** Overwrites the fields present in the request, keeps the others, and saves. */
  method Update(store: Store, matricula: string, p: EmployeePatch) returns (r: Result<()>)
    requires store.Valid()
    modifies store
    ensures store.Valid()
    ensures ParseUuid(matricula).None? ==> r == Err(BadUuid) && unchanged(store)
    ensures ParseUuid(matricula).Some? && ParseUuid(matricula).value !in old(store.employees) ==>
              r == Err(NotFound(EmployeeMissing)) && unchanged(store)
    ensures ParseUuid(matricula).Some? && ParseUuid(matricula).value in old(store.employees) ==>
              var m := ParseUuid(matricula).value;
              var was := old(store.employees)[m];
              && r == Ok(())
              && store.employees == old(store.employees)[m := Employee(
                   p.name.GetOr(was.name), p.admissionDate.GetOr(was.admissionDate), p.role.GetOr(was.role), was.deliveries)]
              && (p == EmployeePatch(None, None, None) ==> store.employees == old(store.employees))
              && Lookup(store, matricula) == Ok(Some(old(View(store, m)).(
                   name := store.employees[m].name, admissionDate := store.employees[m].admissionDate,
                   role := store.employees[m].role)))
              && store.order == old(store.order)
              && store.evaluations == old(store.evaluations) && store.deliveries == old(store.deliveries)
  {
    var parsed := ParseUuid(matricula);
    if parsed.None? {
      return Err(BadUuid);
    }
    var m := parsed.value;
    if m !in store.employees {
      return Err(NotFound(EmployeeMissing));
    }
    var e := store.employees[m];
    if p.name.Some? {
      e := e.(name := p.name.value);
    }
    if p.admissionDate.Some? {
      e := e.(admissionDate := p.admissionDate.value);
    }
    if p.role.Some? {
      e := e.(role := p.role.value);
    }
    store.SaveEmployee(m, e);
    assert Lookup(store, matricula) == Ok(Some(View(store, m)));
    r := Ok(());
  }

  /** The scores of a list of deliveries, in order. */
  function ScoresOf(ds: seq<Delivery>): (xs: seq<nat>)
    ensures |xs| == |ds|
    ensures forall i :: 0 <= i < |ds| ==> xs[i] == ds[i].score
  {
    seq(|ds|, i requires 0 <= i < |ds| => ds[i].score)
  }

  /** The final performance of an employee: it needs an evaluation and at least two
      deliveries; each mean is rounded half-up to two decimals and the final score is
      their exact sum. */
  function PerformanceOf(m: Uuid, name: string, evaluation: Option<Evaluation>, scores: seq<nat>): (r: Result<Performance>)
    ensures r == Err(Business(EvaluationNotDone)) <==> evaluation.None?
    ensures r == Err(Business(TooFewDeliveries)) <==> evaluation.Some? && |scores| < 2
    ensures r.Ok? <==> evaluation.Some? && |scores| >= 2
    ensures r.Ok? ==>
              && r.value.matricula == m && r.value.name == name
              && IsHalfUpRounding(r.value.evaluationMean, Total(evaluation.value.scores), 4)
              && IsHalfUpRounding(r.value.deliveryMean, Sum(scores), |scores|)
              && r.value.finalScore == r.value.evaluationMean + r.value.deliveryMean
  {
    if evaluation.None? then Err(Business(EvaluationNotDone))
    else if |scores| < 2 then Err(Business(TooFewDeliveries))
    else
      var evaluationMean := EvaluationMean(evaluation.value.scores);
      var deliveryMean := Mean(scores);
      Ok(Performance(m, name, evaluationMean, deliveryMean, evaluationMean + deliveryMean))
  }

  /** The performance the store holds for a stored employee. */
  function StoredPerformance(store: Store, m: Uuid): Result<Performance>
    reads store
    requires store.Valid() && m in store.employees
  {
    var evaluation := if m in store.evaluations then Some(store.evaluations[m]) else None;
    PerformanceOf(m, store.employees[m].name, evaluation, ScoresOf(store.DeliveriesOf(m)))
  }

  /** With every score within 1.00..5.00, each mean is within 1.00..5.00 and the final
      score within 2.00..10.00. */
  lemma StoredPerformanceWithinScale(store: Store, m: Uuid)
    requires store.Valid() && m in store.employees
    ensures StoredPerformance(store, m).Ok? ==>
              var p := StoredPerformance(store, m).value;
              && InScoreRange(p.evaluationMean) && InScoreRange(p.deliveryMean)
              && 2 * MinScore <= p.finalScore <= 2 * MaxScore
  {
    if StoredPerformance(store, m).Ok? {
      var ds := store.DeliveriesOf(m);
      var xs := ScoresOf(ds);
      forall i | 0 <= i < |xs| ensures InScoreRange(xs[i]) {
        var id := store.employees[m].deliveries[i];
        assert OwnsExactly(store.deliveries, m, store.employees[m].deliveries);
        assert id in store.deliveries && InScoreRange(store.deliveries[id].score);
        assert ds[i] == store.deliveries[id];
      }
    }
  }

  /** The answer to a performance request: a malformed matricula and an unknown
      employee fail before the performance is considered. */
  function PerformanceReport(store: Store, matricula: string): (r: Result<Performance>)
    reads store
    requires store.Valid()
    ensures ParseUuid(matricula).None? ==> r == Err(BadUuid)
    ensures ParseUuid(matricula).Some? && ParseUuid(matricula).value !in store.employees ==>
              r == Err(NotFound(EmployeeMissing))
    ensures r.Ok? ==> r.value.matricula == ParseUuid(matricula).value && r.value.matricula in store.evaluations
  {
    match ParseUuid(matricula)
    case None => Err(BadUuid)
    case Some(m) => if m in store.employees then StoredPerformance(store, m) else Err(NotFound(EmployeeMissing))
  }

  /** When both checks pass, the performance is the two rounded means and their sum. */
  lemma PerformanceOfPasses(m: Uuid, name: string, evaluation: Evaluation, xs: seq<nat>)
    requires |xs| >= 2
    ensures PerformanceOf(m, name, Some(evaluation), xs) ==
            Ok(Performance(m, name, EvaluationMean(evaluation.scores), RoundHalfUp(Sum(xs), |xs|),
                           EvaluationMean(evaluation.scores) + RoundHalfUp(Sum(xs), |xs|)))
  {
  }

  /** The checks and the arithmetic of the performance calculation for an employee
      already found: the two means and the final score, summing the delivery scores
      one by one. */
  method Evaluate(m: Uuid, name: string, evaluation: Option<Evaluation>, ds: seq<Delivery>) returns (r: Result<Performance>)
    ensures r == PerformanceOf(m, name, evaluation, ScoresOf(ds))
  {
    if evaluation.None? {
      return Err(Business(EvaluationNotDone));
    }
    if |ds| < 2 {
      return Err(Business(TooFewDeliveries));
    }
    ghost var xs := ScoresOf(ds);
    var total: nat := 0;
    var i := 0;
    while i < |ds|
      invariant 0 <= i <= |ds|
      invariant total == Sum(xs[..i])
    {
      SumPrefixStep(xs, i);
      total := total + ds[i].score;
      i := i + 1;
    }
    assert xs[..|ds|] == xs;
    PerformanceOfPasses(m, name, evaluation.value, xs);
    var evaluationMean := EvaluationMean(evaluation.value.scores);
    var deliveryMean := RoundHalfUp(total, |ds|);
    r := Ok(Performance(m, name, evaluationMean, deliveryMean, evaluationMean + deliveryMean));
  }

  /** The performance request: the matricula is parsed, the employee looked up, and
      its evaluation and deliveries evaluated. */
  method ComputePerformance(store: Store, matricula: string) returns (r: Result<Performance>)
    requires store.Valid()
    ensures r == PerformanceReport(store, matricula)
  {
    var parsed := ParseUuid(matricula);
    if parsed.None? {
      return Err(BadUuid);
    }
    var m := parsed.value;
    if m !in store.employees {
      return Err(NotFound(EmployeeMissing));
    }
    var evaluation := if m in store.evaluations then Some(store.evaluations[m]) else None;
    r := Evaluate(m, store.employees[m].name, evaluation, store.DeliveriesOf(m));
  }
}
