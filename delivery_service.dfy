/** The delivery service: deliveries are created, read, listed, updated and deleted
    through the employee that owns them. */
module DeliveryService {
  import opened Common
  import opened Uuids
  import opened Decimal
  import opened Records
  import opened Repository

  /** The responses for a list of deliveries, in the order of the list. */
  function Views(ids: seq<int>, ds: seq<Delivery>): (vs: seq<DeliveryView>)
    requires |ids| == |ds|
    ensures |vs| == |ids|
    ensures forall i :: 0 <= i < |vs| ==> vs[i] == DeliveryView(ids[i], ds[i].description, ds[i].score)
  {
    seq(|ids|, i requires 0 <= i < |ids| => DeliveryView(ids[i], ds[i].description, ds[i].score))
  }

  /** The deliveries of a stored employee, as responses in the order they were added. */
  function ViewsOf(store: Store, m: Uuid): (vs: seq<DeliveryView>)
    reads store
    requires store.Valid() && m in store.employees
    ensures |vs| == |store.employees[m].deliveries| <= DeliveryLimit
    ensures forall i :: 0 <= i < |vs| ==>
              var id := store.employees[m].deliveries[i];
              && id in store.deliveries && store.deliveries[id].owner == m
              && vs[i] == DeliveryView(id, store.deliveries[id].description, store.deliveries[id].score)
  {
    Views(store.employees[m].deliveries, store.DeliveriesOf(m))
  }

  /** Registers a delivery for an employee, unless the employee already has four. */
  method Create(store: Store, matricula: string, description: string, score: nat) returns (r: Result<nat>)
    requires store.Valid() && InScoreRange(score)
    modifies store
    ensures store.Valid()
    ensures ParseUuid(matricula).None? ==> r == Err(BadUuid) && unchanged(store)
    ensures ParseUuid(matricula).Some? && ParseUuid(matricula).value !in old(store.employees) ==>
              r == Err(NotFound(EmployeeMissing)) && unchanged(store)
    ensures ParseUuid(matricula).Some? && ParseUuid(matricula).value in old(store.employees) ==>
              var m := ParseUuid(matricula).value;
              var was := old(store.employees)[m];
              && (|was.deliveries| >= DeliveryLimit ==> r == Err(Business(DeliveryLimitReached)) && unchanged(store))
              && (|was.deliveries| < DeliveryLimit ==>
                    && r.Ok? && r.value !in old(store.deliveries)
                    && store.deliveries == old(store.deliveries)[r.value := Delivery(description, score, m)]
                    && store.employees == old(store.employees)[m := was.(deliveries := was.deliveries + [r.value])]
                    && store.evaluations == old(store.evaluations) && store.order == old(store.order)
                    && Get(store, matricula, r.value) == Ok(DeliveryView(r.value, description, score))
                    && ViewsOf(store, m) == old(ViewsOf(store, m)) + [DeliveryView(r.value, description, score)])
  {
    var parsed := ParseUuid(matricula);
    if parsed.None? {
      return Err(BadUuid);
    }
    var m := parsed.value;
    if m !in store.employees {
      return Err(NotFound(EmployeeMissing));
    }
    if |store.employees[m].deliveries| >= DeliveryLimit {
      return Err(Business(DeliveryLimitReached));
    }
    ghost var before := ViewsOf(store, m);
    var id := store.InsertDelivery(m, description, score);
    assert ViewsOf(store, m) == before + [DeliveryView(id, description, score)];
    r := Ok(id);
  }

  /** Reads one delivery, which must belong to the employee named in the request. */
  function Get(store: Store, matricula: string, id: int): (r: Result<DeliveryView>)
    reads store
    requires store.Valid()
    ensures ParseUuid(matricula).None? ==> r == Err(BadUuid)
    ensures ParseUuid(matricula).Some? ==>
              var m := ParseUuid(matricula).value;
              && (m !in store.employees ==> r == Err(NotFound(EmployeeMissing)))
              && (m in store.employees && id !in store.deliveries ==> r == Err(NotFound(DeliveryMissing(id))))
              && (m in store.employees && id <= 0 ==> r == Err(NotFound(DeliveryMissing(id))))
              && (m in store.employees && id in store.deliveries && store.deliveries[id].owner != m ==>
                    r == Err(Business(AccessDenied(id, matricula))))
              && (m in store.employees && id in store.deliveries && store.deliveries[id].owner == m ==>
                    r == Ok(DeliveryView(id, store.deliveries[id].description, store.deliveries[id].score)))
  {
    match ParseUuid(matricula)
    case None => Err(BadUuid)
    case Some(m) =>
      if m !in store.employees then Err(NotFound(EmployeeMissing))
      else if id !in store.deliveries then Err(NotFound(DeliveryMissing(id)))
      else if store.deliveries[id].owner != m then Err(Business(AccessDenied(id, matricula)))
      else Ok(DeliveryView(id, store.deliveries[id].description, store.deliveries[id].score))
  }

  /** Lists the deliveries of an employee. */
  function List(store: Store, matricula: string): (r: Result<seq<DeliveryView>>)
    reads store
    requires store.Valid()
    ensures ParseUuid(matricula).None? ==> r == Err(BadUuid)
    ensures ParseUuid(matricula).Some? && ParseUuid(matricula).value !in store.employees ==>
              r == Err(NotFound(EmployeeMissing))
    ensures ParseUuid(matricula).Some? && ParseUuid(matricula).value in store.employees ==>
              r == Ok(ViewsOf(store, ParseUuid(matricula).value))
  {
    match ParseUuid(matricula)
    case None => Err(BadUuid)
    case Some(m) =>
      if m !in store.employees then Err(NotFound(EmployeeMissing))
      else Ok(ViewsOf(store, m))
  }

  /** Ownership guard: reading a delivery through an employee succeeds exactly when the
      delivery is one of that employee's deliveries. */
  lemma GetSucceedsExactlyForOwnDeliveries(store: Store, matricula: string, id: int)
    requires store.Valid()
    ensures Get(store, matricula, id).Ok? <==>
              && ParseUuid(matricula).Some?
              && ParseUuid(matricula).value in store.employees
              && id in store.employees[ParseUuid(matricula).value].deliveries
  {
    if ParseUuid(matricula).Some? && ParseUuid(matricula).value in store.employees {
      var m := ParseUuid(matricula).value;
      assert OwnsExactly(store.deliveries, m, store.employees[m].deliveries);
    }
  }

  /** The list and the single read agree: every listed delivery reads back as listed,
      and nothing the employee owns is missing from the list. */
  lemma ListAgreesWithGet(store: Store, matricula: string, id: int)
    requires store.Valid() && List(store, matricula).Ok?
    ensures Get(store, matricula, id).Ok? <==>
              exists v :: v in List(store, matricula).value && v.id == id
    ensures forall v :: v in List(store, matricula).value ==> Get(store, matricula, v.id) == Ok(v)
  {
    var m := ParseUuid(matricula).value;
    var vs := ViewsOf(store, m);
    var ids := store.employees[m].deliveries;
    assert OwnsExactly(store.deliveries, m, ids);
    if Get(store, matricula, id).Ok? {
      var i :| 0 <= i < |ids| && ids[i] == id;
      assert vs[i] in vs && vs[i].id == id;
    }
  }

  /** Deletes a delivery after checking that it belongs to the employee. */
  method Delete(store: Store, matricula: string, id: int) returns (r: Result<()>)
    requires store.Valid()
    modifies store
    ensures store.Valid()
    ensures r.Err? ==> unchanged(store)
    ensures old(Get(store, matricula, id)).Err? ==> r == Err(old(Get(store, matricula, id)).failure)
    ensures old(Get(store, matricula, id)).Ok? ==>
              var m := ParseUuid(matricula).value;
              && r == Ok(())
              && store.deliveries == old(store.deliveries) - {id}
              && store.employees == old(store.employees)[m := old(store.employees)[m].(deliveries := Without(old(store.employees)[m].deliveries, id))]
              && store.evaluations == old(store.evaluations) && store.order == old(store.order)
              && Get(store, matricula, id) == Err(NotFound(DeliveryMissing(id)))
  {
    var parsed := ParseUuid(matricula);
    if parsed.None? {
      return Err(BadUuid);
    }
    var m := parsed.value;
    if m !in store.employees {
      return Err(NotFound(EmployeeMissing));
    }
    if id !in store.deliveries {
      return Err(NotFound(DeliveryMissing(id)));
    }
    if store.deliveries[id].owner != m {
      return Err(Business(AccessDenied(id, matricula)));
    }
    store.RemoveDelivery(id);
    r := Ok(());
  }

  /** Overwrites the description and the score when they are present in the request.
      Every failed check raises a generic runtime error. */
  method Update(store: Store, matricula: string, id: int, p: DeliveryPatch) returns (r: Result<()>)
    requires store.Valid() && DeliveryPatchInRange(p)
    modifies store
    ensures store.Valid()
    ensures r.Err? ==> unchanged(store)
    ensures ParseUuid(matricula).None? ==> r == Err(BadUuid)
    ensures ParseUuid(matricula).Some? ==>
              var m := ParseUuid(matricula).value;
              && (m !in old(store.employees) ==> r == Err(Generic(EmployeeMissing)))
              && (m in old(store.employees) && id !in old(store.deliveries) ==> r == Err(Generic(DeliveryMissing(id))))
              && (m in old(store.employees) && id in old(store.deliveries) && old(store.deliveries)[id].owner != m ==>
                    r == Err(Generic(AccessDenied(id, matricula))))
    ensures old(Get(store, matricula, id)).Ok? ==>
              var was := old(store.deliveries)[id];
              && r == Ok(())
              && store.deliveries == old(store.deliveries)[id := Delivery(p.description.GetOr(was.description), p.score.GetOr(was.score), was.owner)]
              && store.employees == old(store.employees) && store.evaluations == old(store.evaluations)
              && store.order == old(store.order)
              && (p == DeliveryPatch(None, None) ==> store.deliveries == old(store.deliveries))
              && Get(store, matricula, id) == Ok(DeliveryView(id, store.deliveries[id].description, store.deliveries[id].score))
  {
    var parsed := ParseUuid(matricula);
    if parsed.None? {
      return Err(BadUuid);
    }
    var m := parsed.value;
    if m !in store.employees {
      return Err(Generic(EmployeeMissing));
    }
    if id !in store.deliveries {
      return Err(Generic(DeliveryMissing(id)));
    }
    var d := store.deliveries[id];
    if d.owner != m {
      return Err(Generic(AccessDenied(id, matricula)));
    }
    if p.description.Some? {
      d := d.(description := p.description.value);
    }
    if p.score.Some? {
      d := d.(score := p.score.value);
    }
    store.SaveDelivery(id, d);
    assert Get(store, matricula, id) == Ok(DeliveryView(id, d.description, d.score));
    r := Ok(());
  }
}
