/** Option and Result wrappers, and the failures the services raise. */
module Common {

  /** A value that may be absent: Java's null or an empty Optional. */
  datatype Option<+T> = None | Some(value: T) {
    function GetOr(default: T): T {
      match this
      case Some(v) => v
      case None => default
    }
  }

  /** Why a service refused a call: one constructor per message the services raise. */
  datatype Reason =
    | EmployeeMissing                            // no employee with that matricula
    | DeliveryMissing(id: int)                   // no delivery with that id at all
    | EvaluationMissing                          // the employee has no evaluation (lookup)
    | AccessDenied(id: int, matricula: string)   // the delivery belongs to another employee
    | DeliveryLimitReached                       // the employee already has four deliveries
    | EvaluationNotDone                          // performance asked before any evaluation
    | TooFewDeliveries                           // performance asked with fewer than two deliveries
    | NoEvaluationToUpdate(matricula: string)    // update of an evaluation that does not exist
    | EvaluationAlreadyStored                    // the store's one-to-one constraint refused a second evaluation

  /** The exception kinds: resource-not-found, business-rule, a plain runtime error,
      and the argument error of parsing a malformed matricula. */
  datatype Failure =
    | NotFound(reason: Reason)
    | Business(reason: Reason)
    | Generic(reason: Reason)
    | BadUuid

  datatype Result<+T> = Ok(value: T) | Err(failure: Failure)
}
