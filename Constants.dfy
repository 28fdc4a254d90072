/** The literal texts the responses use. */
module Constants {
  // keys of the error maps
  const ErrorKey: string := "error"
  const MessageKey: string := "Message"
  const DetailsKey: string := "Details"
  const AttemptedMethodKey: string := "attempted_method"
  const SupportedMethodsKey: string := "Supported_Methods"

  // envelope messages
  const InvalidRequestContent: string := "Invalid request content"
  const ObjectNotFound: string := "Object Not Found"
  const ResourceNotFound: string := "Resource Not Found"
  const MethodNotAllowed: string := "Method Not Allowed"
  const RequestBodyMissing: string := "Required request body is missing or malformed."
  const EmployeeCreated: string := "Employee Successfully Created"
  const EmployeeUpdated: string := "Employee Successfully Updated"
  const EmployeeDeleted: string := "Employee Deleted Successfully"
  const BadRequest: string := "Bad Request"

  /** The message of the `NoSuchElementException` that `Optional.get()` throws on an empty optional. */
  const NoValuePresent: string := "No value present"
}
