/** The persistent employee entity and the two entities it owns, as objects whose
    fields are updated in place, with the helpers that keep both ends of each
    association in step. */
module Entities {
  import opened Common
  import opened Uuids
  import opened Records

  class EvaluationEntity {
    var id: Option<nat>
    var scores: Scores
    /** The owning side of the one-to-one association. */
    var owner: EmployeeEntity?

    constructor (scores: Scores)
      ensures this.scores == scores && id == None && owner == null
    {
      this.scores := scores;
      id := None;
      owner := null;
    }
  }

  class DeliveryEntity {
    var id: Option<nat>
    var description: string
    var score: nat
    /** The owning side of the many-to-one association. */
    var owner: EmployeeEntity?

    constructor (description: string, score: nat)
      ensures this.description == description && this.score == score
      ensures id == None && owner == null
    {
      this.description := description;
      this.score := score;
      id := None;
      owner := null;
    }
  }

  class EmployeeEntity {
    /** Generated by the database on the first save; absent before it. */
    var matricula: Option<Uuid>
    var name: string
    var admissionDate: Date
    var role: string
    var evaluation: EvaluationEntity?
    var deliveries: seq<DeliveryEntity>

    /** Both ends agree: the evaluation and every delivery point back to this employee. */
    ghost predicate Linked()
      reads this, evaluation, deliveries
    {
      && (evaluation != null ==> evaluation.owner == this)
      && forall i :: 0 <= i < |deliveries| ==> deliveries[i].owner == this
    }

    /** The three-argument constructor assigns the matricula field to itself, so the
        matricula stays absent until the database generates one. */
    constructor (name: string, admissionDate: Date, role: string)
      ensures matricula == None
      ensures this.name == name && this.admissionDate == admissionDate && this.role == role
      ensures evaluation == null && deliveries == []
      ensures Linked()
    {
      matricula := None;
      this.name := name;
      this.admissionDate := admissionDate;
      this.role := role;
      evaluation := null;
      deliveries := [];
    }

    constructor WithMatricula(matricula: Uuid, name: string, admissionDate: Date, role: string)
      ensures this.matricula == Some(matricula)
      ensures this.name == name && this.admissionDate == admissionDate && this.role == role
      ensures evaluation == null && deliveries == []
      ensures Linked()
    {
      this.matricula := Some(matricula);
      this.name := name;
      this.admissionDate := admissionDate;
      this.role := role;
      evaluation := null;
      deliveries := [];
    }

    /** Replaces the evaluation and, when there is one, points it back at this
        employee; a previous evaluation is dropped from the association. */
    method SetEvaluation(e: EvaluationEntity?)
      modifies this, e
      ensures evaluation == e
      ensures e != null ==> e.owner == this && e.scores == old(e.scores) && e.id == old(e.id)
      ensures matricula == old(matricula) && name == old(name) && role == old(role)
      ensures admissionDate == old(admissionDate) && deliveries == old(deliveries)
      ensures forall i :: 0 <= i < |deliveries| ==> deliveries[i].owner == old(deliveries[i].owner)
      ensures old(Linked()) ==> Linked()
    {
      evaluation := e;
      if e != null {
        e.owner := this;
      }
    }

    /** Appends a delivery to the list and points it back at this employee. */
    method AddDelivery(d: DeliveryEntity)
      modifies this, d
      ensures deliveries == old(deliveries) + [d]
      ensures d.owner == this && d.description == old(d.description) && d.score == old(d.score) && d.id == old(d.id)
      ensures matricula == old(matricula) && name == old(name) && role == old(role)
      ensures admissionDate == old(admissionDate) && evaluation == old(evaluation)
      ensures evaluation != null ==> evaluation.owner == old(evaluation.owner)
      ensures forall i :: 0 <= i < |old(deliveries)| && old(deliveries)[i] != d ==>
                old(deliveries)[i].owner == old(deliveries[i].owner)
      ensures old(Linked()) ==> Linked()
    {
      deliveries := deliveries + [d];
      d.owner := this;
    }
  }
}
