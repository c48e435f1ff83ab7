/**
  The exception classes the services throw, as one error datatype, and the
  success-or-error result every fallible operation returns.
 */
module Failures {

  datatype Error =
    | PaymentProcessing(message: string)     // PaymentProcessingException
    | OrderNotFound(message: string)         // OrderNotFoundException
    | InvalidPlan(message: string)           // InvalidPlanException
    | OrderServiceFailure(message: string)   // OrderServiceException
    | UserServiceFailure(message: string)    // UserServiceException
    | Validation(message: string)            // ValidationException
    | WebhookRejected(message: string)       // WebhookException
    | InvalidFile(message: string)           // InvalidFileException
    | RemoveBgFailure(message: string)       // RemoveBgServiceException

  datatype Result<+T> = Ok(value: T) | Err(error: Error) {

    predicate IsFailure() {
      Err?
    }

    function PropagateFailure<U>(): Result<U>
      requires Err?
    {
      Err(error)
    }

    function Extract(): T
      requires Ok?
    {
      value
    }
  }
}
