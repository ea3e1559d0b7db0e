/**
 * Why a view or serializer refuses a request. The HTTP status codes, the
 * messages and the redirects of the views are not modelled, only which
 * check refused.
 */
module Refusals {
  import opened Workflow

  datatype Refusal =
    | MethodNotAllowed               // not a POST
    | Forbidden                      // the role or the access predicate does not allow it
    | NotFound                       // no such row, or not in the user's queryset
    | MissingFields                  // a required field is absent or empty
    | NullCharacter                  // a text field holds a NUL character
    | InvalidAmount                  // not a decimal, or not above zero
    | InvalidType                    // not one of the transaction type choices
    | NoCity                         // the user has no city
    | NoAccount                      // the user's city has no account
    | WrongCity                      // the account belongs to another city
    | InsufficientBalance            // the account cannot cover the withdrawal
    | AlreadyDecided                 // the user already approved or rejected this transaction
    | NotProcessable                 // the record is not PENDING
    | InvalidAction                  // neither "approve" nor "reject"
    | NotPending                     // the transaction is no longer PENDING
    | DecisionFailed                 // `approve`/`reject` returned False
    | ApprovalsFailed(e: CreateError) // `create_request_approvals` raised; the transaction stays saved
}
