/** The earlier persistent employee entity. It has the same associations as the
    current one; its evaluation stores each score as a whole point from 1 to 5, and
    deliveries are added through a method named for challenges. */
module LegacyEntities {
  import opened Common
  import opened Uuids
  import opened Records

  class LegacyEvaluationEntity {
    var id: Option<nat>
    /** Whole points, each within 1..5. */
    var behavioural: nat
    var learning: nat
    var decisionMaking: nat
    var autonomy: nat
    var owner: LegacyEmployeeEntity?

    constructor (behavioural: nat, learning: nat, decisionMaking: nat, autonomy: nat)
      ensures this.behavioural == behavioural && this.learning == learning
      ensures this.decisionMaking == decisionMaking && this.autonomy == autonomy
      ensures id == None && owner == null
    {
      this.behavioural := behavioural;
      this.learning := learning;
      this.decisionMaking := decisionMaking;
      this.autonomy := autonomy;
      id := None;
      owner := null;
    }
  }

  class LegacyDeliveryEntity {
    var id: Option<nat>
    var description: string
    var score: nat
    var owner: LegacyEmployeeEntity?

    constructor (description: string, score: nat)
      ensures this.description == description && this.score == score
      ensures id == None && owner == null
    {
      this.description := description;
      this.score := score;
      id := None;
      owner := null;
    }
  }

  class LegacyEmployeeEntity {
    var matricula: Option<Uuid>
    var name: string
    var admissionDate: Date
    var role: string
    var evaluation: LegacyEvaluationEntity?
    var deliveries: seq<LegacyDeliveryEntity>

    ghost predicate Linked()
      reads this, evaluation, deliveries
    {
      && (evaluation != null ==> evaluation.owner == this)
      && forall i :: 0 <= i < |deliveries| ==> deliveries[i].owner == this
    }

    constructor (matricula: Uuid, name: string, admissionDate: Date, role: string)
      ensures this.matricula == Some(matricula)
      ensures this.name == name && this.admissionDate == admissionDate && this.role == role
      ensures evaluation == null && deliveries == []
      ensures Linked()
    {
      this.matricula := Some(matricula);
      this.name := name;
      this.admissionDate := admissionDate;
      this.role := role;
      evaluation := null;
      deliveries := [];
    }

    method SetEvaluation(e: LegacyEvaluationEntity?)
      modifies this, e
      ensures evaluation == e
      ensures e != null ==> && e.owner == this && e.id == old(e.id)
                            && e.behavioural == old(e.behavioural) && e.learning == old(e.learning)
                            && e.decisionMaking == old(e.decisionMaking) && e.autonomy == old(e.autonomy)
      ensures matricula == old(matricula) && name == old(name) && role == old(role)
      ensures admissionDate == old(admissionDate) && deliveries == old(deliveries)
      ensures forall i :: 0 <= i < |deliveries| ==> deliveries[i].owner == old(deliveries[i].owner)
      ensures old(Linked()) ==> Linked()
    {
      evaluation := e;
      if e != null {
        e.owner := this;
      }
    }

    /** Appends a delivery to the list and points it back at this employee. */
    method AddChallenge(d: LegacyDeliveryEntity)
      modifies this, d
      ensures deliveries == old(deliveries) + [d]
      ensures d.owner == this && d.description == old(d.description) && d.score == old(d.score) && d.id == old(d.id)
      ensures matricula == old(matricula) && name == old(name) && role == old(role)
      ensures admissionDate == old(admissionDate) && evaluation == old(evaluation)
      ensures evaluation != null ==> evaluation.owner == old(evaluation.owner)
      ensures forall i :: 0 <= i < |old(deliveries)| && old(deliveries)[i] != d ==>
                old(deliveries)[i].owner == old(deliveries[i].owner)
      ensures old(Linked()) ==> Linked()
    {
      deliveries := deliveries + [d];
      d.owner := this;
    }
  }
}
