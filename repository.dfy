/** The persistent store behind the three repositories: employees keyed by matricula,
    at most one evaluation per employee, and deliveries keyed by a generated id, each
    naming its owner. Deleting rows cascades as the mapping's cascade and
    orphan-removal settings make it. */
module Repository {
  import opened Common
  import opened Uuids
  import opened Decimal
  import opened Records

  /** Most deliveries one employee may have. */
  const DeliveryLimit: nat := 4

  /** ids lists, once each, exactly the deliveries in the table that m owns. */
  ghost predicate OwnsExactly(deliveries: map<int, Delivery>, m: Uuid, ids: seq<int>) {
    && Distinct(ids)
    && (forall i :: 0 <= i < |ids| ==> ids[i] in deliveries && deliveries[ids[i]].owner == m)
    && (forall id :: id in deliveries && deliveries[id].owner == m ==> id in ids)
  }

  /** The store invariant: listing order and key set agree, every evaluation and
      delivery belongs to a stored employee and carries validated scores, ids are positive and
      below the next id to hand out, and each employee's delivery list holds exactly
      its deliveries, at most DeliveryLimit of them. */
  ghost predicate Consistent(
    employees: map<Uuid, Employee>, order: seq<Uuid>, evaluations: map<Uuid, Evaluation>,
    deliveries: map<int, Delivery>, nextEvaluationId: nat, nextDeliveryId: nat)
  {
    && 0 < nextDeliveryId
    && Distinct(order)
    && (forall m :: m in employees <==> m in order)
    && (forall m :: m in employees ==> WellFormed(m))
    && (forall m :: m in evaluations ==>
          m in employees && ScoresInRange(evaluations[m].scores) && evaluations[m].id < nextEvaluationId)
    && (forall id :: id in deliveries ==>
          deliveries[id].owner in employees && InScoreRange(deliveries[id].score) && 0 < id < nextDeliveryId)
    && (forall m :: m in employees ==>
          |employees[m].deliveries| <= DeliveryLimit && OwnsExactly(deliveries, m, employees[m].deliveries))
  }

  /** The deliveries a list of ids names, in list order. */
  function Resolve(deliveries: map<int, Delivery>, ids: seq<int>): (ds: seq<Delivery>)
    requires forall i :: 0 <= i < |ids| ==> ids[i] in deliveries
    ensures |ds| == |ids| && forall i :: 0 <= i < |ids| ==> ds[i] == deliveries[ids[i]]
  {
    seq(|ids|, i requires 0 <= i < |ids| => deliveries[ids[i]])
  }

  /** The deliveries that m does not own: what the cascade leaves when m is deleted. */
  function DropOwnedBy(deliveries: map<int, Delivery>, m: Uuid): (r: map<int, Delivery>)
    ensures forall id :: id in r <==> id in deliveries && deliveries[id].owner != m
    ensures forall id :: id in r ==> r[id] == deliveries[id]
  {
    map id | id in deliveries && deliveries[id].owner != m :: deliveries[id]
  }

  /** Deleting employee m with its cascade keeps the invariant. */
  lemma RemoveEmployeeKeepsConsistent(
    employees: map<Uuid, Employee>, order: seq<Uuid>, evaluations: map<Uuid, Evaluation>,
    deliveries: map<int, Delivery>, nextEvaluationId: nat, nextDeliveryId: nat, m: Uuid)
    requires Consistent(employees, order, evaluations, deliveries, nextEvaluationId, nextDeliveryId)
    requires m in employees
    ensures Consistent(employees - {m}, Without(order, m), evaluations - {m},
                       DropOwnedBy(deliveries, m), nextEvaluationId, nextDeliveryId)
  {
    WithoutKeepsDistinct(order, m);
    var employees' := employees - {m};
    var deliveries' := DropOwnedBy(deliveries, m);
    forall m' | m' in employees'
      ensures OwnsExactly(deliveries', m', employees'[m'].deliveries)
    {
      var ids := employees'[m'].deliveries;
      assert OwnsExactly(deliveries, m', ids);
      forall i | 0 <= i < |ids| ensures ids[i] in deliveries' && deliveries'[ids[i]].owner == m' {
        assert deliveries[ids[i]].owner == m';
      }
    }
  }

  lemma OwnerListAfterRemoval(deliveries: map<int, Delivery>, o: Uuid, ids: seq<int>, id: int)
    requires OwnsExactly(deliveries, o, ids)
    ensures OwnsExactly(deliveries - {id}, o, Without(ids, id))
  {
    WithoutKeepsDistinct(ids, id);
    var ids' := Without(ids, id);
    forall i | 0 <= i < |ids'| ensures ids'[i] in deliveries - {id} && (deliveries - {id})[ids'[i]].owner == o {
      assert ids'[i] in ids;
    }
  }

  lemma OtherListAfterRemoval(deliveries: map<int, Delivery>, m: Uuid, ids: seq<int>, id: int)
    requires OwnsExactly(deliveries, m, ids)
    requires id in deliveries && deliveries[id].owner != m
    ensures OwnsExactly(deliveries - {id}, m, ids)
  {
  }

  /** Deleting delivery id, and dropping it from its owner's list, keeps the invariant. */
  lemma RemoveDeliveryKeepsConsistent(
    employees: map<Uuid, Employee>, order: seq<Uuid>, evaluations: map<Uuid, Evaluation>,
    deliveries: map<int, Delivery>, nextEvaluationId: nat, nextDeliveryId: nat, id: int)
    requires Consistent(employees, order, evaluations, deliveries, nextEvaluationId, nextDeliveryId)
    requires id in deliveries
    ensures var o := deliveries[id].owner;
            Consistent(employees[o := employees[o].(deliveries := Without(employees[o].deliveries, id))],
                       order, evaluations, deliveries - {id}, nextEvaluationId, nextDeliveryId)
  {
    var o := deliveries[id].owner;
    var e := employees[o];
    var employees' := employees[o := e.(deliveries := Without(e.deliveries, id))];
    var deliveries' := deliveries - {id};
    forall m' | m' in employees'
      ensures |employees'[m'].deliveries| <= DeliveryLimit
      ensures OwnsExactly(deliveries', m', employees'[m'].deliveries)
    {
      if m' == o {
        OwnerListAfterRemoval(deliveries, o, e.deliveries, id);
      } else {
        OtherListAfterRemoval(deliveries, m', employees[m'].deliveries, id);
      }
    }
    assert forall m :: m in employees' <==> m in order;
    assert forall m :: m in employees' ==> WellFormed(m);
    assert forall m :: m in evaluations ==> m in employees';
    assert forall d :: d in deliveries' ==> deliveries'[d].owner in employees';
    assert Consistent(employees', order, evaluations, deliveries', nextEvaluationId, nextDeliveryId);
  }

  /** Storing a new delivery under the next id and appending it to its owner's list
      keeps the invariant, as long as the owner is below the limit. */
  lemma InsertDeliveryKeepsConsistent(
    employees: map<Uuid, Employee>, order: seq<Uuid>, evaluations: map<Uuid, Evaluation>,
    deliveries: map<int, Delivery>, nextEvaluationId: nat, nextDeliveryId: nat, m: Uuid, d: Delivery)
    requires Consistent(employees, order, evaluations, deliveries, nextEvaluationId, nextDeliveryId)
    requires m in employees && d.owner == m && InScoreRange(d.score)
    requires |employees[m].deliveries| < DeliveryLimit
    ensures Consistent(employees[m := employees[m].(deliveries := employees[m].deliveries + [nextDeliveryId])],
                       order, evaluations, deliveries[nextDeliveryId := d], nextEvaluationId, nextDeliveryId + 1)
  {
    var id := nextDeliveryId;
    var e := employees[m];
    var employees' := employees[m := e.(deliveries := e.deliveries + [id])];
    var deliveries' := deliveries[id := d];
    forall m' | m' in employees'
      ensures |employees'[m'].deliveries| <= DeliveryLimit
      ensures OwnsExactly(deliveries', m', employees'[m'].deliveries)
    {
      var ids := employees'[m'].deliveries;
      assert OwnsExactly(deliveries, m', employees[m'].deliveries);
      if m' == m {
        assert ids == e.deliveries + [id];
        assert id !in e.deliveries;
      } else {
        assert id !in ids;
      }
    }
    assert forall x :: x in employees' <==> x in order;
    assert forall x :: x in employees' ==> WellFormed(x);
    assert forall x :: x in evaluations ==> x in employees';
    assert forall x :: x in deliveries' ==> deliveries'[x].owner in employees' && InScoreRange(deliveries'[x].score) && 0 < x < id + 1;
    assert Consistent(employees', order, evaluations, deliveries', nextEvaluationId, id + 1);
  }

  lemma ReplaceKeepsOwnership(deliveries: map<int, Delivery>, m: Uuid, ids: seq<int>, id: int, d: Delivery)
    requires OwnsExactly(deliveries, m, ids)
    requires id in deliveries && d.owner == deliveries[id].owner
    ensures OwnsExactly(deliveries[id := d], m, ids)
  {
  }

  /** Replacing a delivery by one with the same owner and a validated score keeps the
      invariant. */
  lemma SaveDeliveryKeepsConsistent(
    employees: map<Uuid, Employee>, order: seq<Uuid>, evaluations: map<Uuid, Evaluation>,
    deliveries: map<int, Delivery>, nextEvaluationId: nat, nextDeliveryId: nat, id: int, d: Delivery)
    requires Consistent(employees, order, evaluations, deliveries, nextEvaluationId, nextDeliveryId)
    requires id in deliveries && d.owner == deliveries[id].owner && InScoreRange(d.score)
    ensures Consistent(employees, order, evaluations, deliveries[id := d], nextEvaluationId, nextDeliveryId)
  {
    var deliveries' := deliveries[id := d];
    forall m | m in employees
      ensures |employees[m].deliveries| <= DeliveryLimit
      ensures OwnsExactly(deliveries', m, employees[m].deliveries)
    {
      ReplaceKeepsOwnership(deliveries, m, employees[m].deliveries, id, d);
    }
    assert forall x :: x in deliveries' ==>
      deliveries'[x].owner in employees && InScoreRange(deliveries'[x].score) && 0 < x < nextDeliveryId;
    assert Consistent(employees, order, evaluations, deliveries', nextEvaluationId, nextDeliveryId);
  }

  class Store {
    var employees: map<Uuid, Employee>
    /** The order in which listing all employees returns them. */
    var order: seq<Uuid>
    var evaluations: map<Uuid, Evaluation>
    var deliveries: map<int, Delivery>
    /** Identity columns: the next ids the database hands out. */
    var nextEvaluationId: nat
    var nextDeliveryId: nat

    ghost predicate Valid()
      reads this
    {
      Consistent(employees, order, evaluations, deliveries, nextEvaluationId, nextDeliveryId)
    }

    constructor ()
      ensures Valid()
      ensures employees == map[] && order == [] && evaluations == map[] && deliveries == map[]
    {
      employees, order, evaluations, deliveries := map[], [], map[], map[];
      nextEvaluationId, nextDeliveryId := 1, 1;
    }

    /** The deliveries of m, in the order of its list. */
    function DeliveriesOf(m: Uuid): (ds: seq<Delivery>)
      reads this
      requires Valid() && m in employees
      ensures |ds| == |employees[m].deliveries|
      ensures forall i :: 0 <= i < |ds| ==>
                ds[i] == deliveries[employees[m].deliveries[i]] && ds[i].owner == m
    {
      assert OwnsExactly(deliveries, m, employees[m].deliveries);
      Resolve(deliveries, employees[m].deliveries)
    }

    /** save() of a new employee: the generated matricula m is the parameter. */
    method AddEmployee(m: Uuid, name: string, admissionDate: Date, role: string)
      requires Valid() && WellFormed(m) && m !in employees
      modifies this
      ensures Valid()
      ensures employees == old(employees)[m := Employee(name, admissionDate, role, [])]
      ensures order == old(order) + [m]
      ensures evaluations == old(evaluations) && deliveries == old(deliveries)
      ensures nextEvaluationId == old(nextEvaluationId) && nextDeliveryId == old(nextDeliveryId)
    {
      employees := employees[m := Employee(name, admissionDate, role, [])];
      order := order + [m];
      forall m' | m' in employees
        ensures OwnsExactly(deliveries, m', employees[m'].deliveries)
      {
        if m' == m {
          forall id | id in deliveries ensures deliveries[id].owner != m {
          }
        }
      }
    }

    /** save() of an existing employee whose name, date or role changed. */
    method SaveEmployee(m: Uuid, e: Employee)
      requires Valid() && m in employees && e.deliveries == employees[m].deliveries
      modifies this
      ensures Valid()
      ensures employees == old(employees)[m := e]
      ensures order == old(order) && evaluations == old(evaluations) && deliveries == old(deliveries)
      ensures nextEvaluationId == old(nextEvaluationId) && nextDeliveryId == old(nextDeliveryId)
    {
      employees := employees[m := e];
    }

    /** delete() of an employee; the cascade removes its evaluation and its deliveries. */
    method RemoveEmployee(m: Uuid)
      requires Valid() && m in employees
      modifies this
      ensures Valid()
      ensures employees == old(employees) - {m}
      ensures order == Without(old(order), m)
      ensures evaluations == old(evaluations) - {m}
      ensures deliveries == DropOwnedBy(old(deliveries), m)
      ensures nextEvaluationId == old(nextEvaluationId) && nextDeliveryId == old(nextDeliveryId)
    {
      RemoveEmployeeKeepsConsistent(employees, order, evaluations, deliveries, nextEvaluationId, nextDeliveryId, m);
      employees, order, evaluations, deliveries :=
        employees - {m}, Without(order, m), evaluations - {m}, DropOwnedBy(deliveries, m);
    }

    /** save() of a new delivery owned by m; the id comes from the identity column. */
    method InsertDelivery(m: Uuid, description: string, score: nat) returns (id: nat)
      requires Valid() && m in employees && InScoreRange(score)
      requires |employees[m].deliveries| < DeliveryLimit
      modifies this
      ensures Valid()
      ensures id == old(nextDeliveryId) && id !in old(deliveries)
      ensures deliveries == old(deliveries)[id := Delivery(description, score, m)]
      ensures employees == old(employees)[m := old(employees)[m].(deliveries := old(employees)[m].deliveries + [id])]
      ensures order == old(order) && evaluations == old(evaluations)
      ensures nextEvaluationId == old(nextEvaluationId) && nextDeliveryId == id + 1
    {
      id := nextDeliveryId;
      InsertDeliveryKeepsConsistent(employees, order, evaluations, deliveries, nextEvaluationId, nextDeliveryId,
                                    m, Delivery(description, score, m));
      var e := employees[m];
      employees, deliveries, nextDeliveryId :=
        employees[m := e.(deliveries := e.deliveries + [id])], deliveries[id := Delivery(description, score, m)], id + 1;
    }

    /** save() of an existing delivery whose description or score changed. */
    method SaveDelivery(id: int, d: Delivery)
      requires Valid() && id in deliveries && d.owner == deliveries[id].owner && InScoreRange(d.score)
      modifies this
      ensures Valid()
      ensures deliveries == old(deliveries)[id := d]
      ensures employees == old(employees) && order == old(order) && evaluations == old(evaluations)
      ensures nextEvaluationId == old(nextEvaluationId) && nextDeliveryId == old(nextDeliveryId)
    {
      SaveDeliveryKeepsConsistent(employees, order, evaluations, deliveries, nextEvaluationId, nextDeliveryId, id, d);
      deliveries := deliveries[id := d];
    }

    /** deleteById() of a delivery; it also leaves its owner's list. */
    method RemoveDelivery(id: int)
      requires Valid() && id in deliveries
      modifies this
      ensures Valid()
      ensures deliveries == old(deliveries) - {id}
      ensures var o := old(deliveries)[id].owner;
              employees == old(employees)[o := old(employees)[o].(deliveries := Without(old(employees)[o].deliveries, id))]
      ensures order == old(order) && evaluations == old(evaluations)
      ensures nextEvaluationId == old(nextEvaluationId) && nextDeliveryId == old(nextDeliveryId)
    {
      RemoveDeliveryKeepsConsistent(employees, order, evaluations, deliveries, nextEvaluationId, nextDeliveryId, id);
      var o := deliveries[id].owner;
      employees := employees[o := employees[o].(deliveries := Without(employees[o].deliveries, id))];
      deliveries := deliveries - {id};
    }

    /** save() of a new evaluation for m. The mapping allows one evaluation per
        employee, so a second one is refused by the database and nothing is stored. */
    method InsertEvaluation(m: Uuid, scores: Scores) returns (r: Result<nat>)
      requires Valid() && m in employees && ScoresInRange(scores)
      modifies this
      ensures Valid()
      ensures m in old(evaluations) ==> r == Err(Generic(EvaluationAlreadyStored)) && evaluations == old(evaluations)
      ensures m !in old(evaluations) ==>
                && r == Ok(old(nextEvaluationId))
                && evaluations == old(evaluations)[m := Evaluation(r.value, scores)]
      ensures r.Ok? ==> forall m' :: m' in old(evaluations) ==> old(evaluations)[m'].id != r.value
      ensures employees == old(employees) && order == old(order) && deliveries == old(deliveries)
      ensures nextDeliveryId == old(nextDeliveryId)
    {
      if m in evaluations {
        r := Err(Generic(EvaluationAlreadyStored));
      } else {
        r := Ok(nextEvaluationId);
        evaluations := evaluations[m := Evaluation(nextEvaluationId, scores)];
        nextEvaluationId := nextEvaluationId + 1;
      }
    }

    /** save() of the evaluation of m with new scores. */
    method SaveEvaluation(m: Uuid, scores: Scores)
      requires Valid() && m in evaluations && ScoresInRange(scores)
      modifies this
      ensures Valid()
      ensures evaluations == old(evaluations)[m := old(evaluations)[m].(scores := scores)]
      ensures employees == old(employees) && order == old(order) && deliveries == old(deliveries)
      ensures nextEvaluationId == old(nextEvaluationId) && nextDeliveryId == old(nextDeliveryId)
    {
      evaluations := evaluations[m := evaluations[m].(scores := scores)];
    }

    /** Clearing the employee's evaluation reference: orphan removal deletes the row. */
    method RemoveEvaluation(m: Uuid)
      requires Valid()
      modifies this
      ensures Valid()
      ensures evaluations == old(evaluations) - {m}
      ensures employees == old(employees) && order == old(order) && deliveries == old(deliveries)
      ensures nextEvaluationId == old(nextEvaluationId) && nextDeliveryId == old(nextDeliveryId)
    {
      evaluations := evaluations - {m};
    }
  }
}
