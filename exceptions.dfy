/** The exceptions the two services throw, as values. */
module Exceptions {

  datatype Error =
      /** ResourceNotFoundException(resourceName, fieldName, fieldValue) */
    | ResourceNotFound(resourceName: string, fieldName: string, fieldValue: int)
      /** ValidationException(message) */
    | Validation(message: string)
      /** The authentication manager's rejection of a login; the model does not
          tell BadCredentialsException apart from its account-status exceptions */
    | BadCredentials

  /** The exception every product operation throws for an unknown or inactive id. */
  function ProductNotFound(id: int): (e: Error)
    ensures e.ResourceNotFound? && e.fieldValue == id
  {
    ResourceNotFound("Product", "id", id)
  }
}
