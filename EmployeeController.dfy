/**
 * The REST controller for `/employees`. Each handler is a function of what
 * the service call returned: a service exception (`Failure`) leaves the
 * handler unchanged and is answered by the exception handler; otherwise the
 * handler wraps the result in an envelope. The envelope's `httpStatus` is a
 * field of the JSON body only: no handler here sets the status of the HTTP
 * response itself.
 */
module EmployeeController {
  import opened Wrappers
  import opened EmployeeEntity
  import opened EmployeeServiceImpl
  import opened ResponseContainerEntity
  import opened ApiResponseContainer
  import Constants

  /** The message of both read handlers. */
  const SuccessMessage: string := "Success"

  /** `POST /employees`: the saved employee, marked `CREATED`. */
  function CreateEmployee(created: Result<Employee, ServiceError>): (r: Result<ResponseContainer<Employee>, ServiceError>)
    ensures created.Failure? ==> r == Failure(created.error)
    ensures created.Success? ==>
      && r.Success?
      && r.value.body == Some(created.value)
      && r.value.httpStatus == Some(Created)
      && r.value.message == Some(Constants.EmployeeCreated)
      && !r.value.isError
  {
    match created
    case Failure(e) => Failure(e)
    case Success(saved) => Success(GetResponseOfMessageBodyAndStatus(Constants.EmployeeCreated, Some(saved), Created))
  }

  /** `PUT /employees/{id}`: the merged employee, also marked `CREATED`. */
  function UpdateEmployee(updated: Result<Employee, ServiceError>): (r: Result<ResponseContainer<Employee>, ServiceError>)
    ensures updated.Failure? ==> r == Failure(updated.error)
    ensures updated.Success? ==>
      && r.Success?
      && r.value.body == Some(updated.value)
      && r.value.httpStatus == Some(Created)
      && r.value.message == Some(Constants.EmployeeUpdated)
      && !r.value.isError
  {
    match updated
    case Failure(e) => Failure(e)
    case Success(saved) => Success(GetResponseOfMessageBodyAndStatus(Constants.EmployeeUpdated, Some(saved), Created))
  }

  /** `DELETE /employees/{id}`: no body, marked `NO_CONTENT`. */
  function DeleteEmployee(deleted: Result<(), ServiceError>): (r: Result<ResponseContainer<Employee>, ServiceError>)
    ensures deleted.Failure? ==> r == Failure(deleted.error)
    ensures deleted.Success? ==>
      && r.Success?
      && r.value.body.None?
      && r.value.httpStatus == Some(NoContent)
      && r.value.message == Some(Constants.EmployeeDeleted)
      && !r.value.isError
  {
    match deleted
    case Failure(e) => Failure(e)
    case Success(_) => Success(GetResponseOfMessageAndStatus(Constants.EmployeeDeleted, NoContent))
  }

  /** `GET /employees`: the list, `OK` exactly when it has an element and `NO_CONTENT` exactly when it is empty. */
  function GetAllEmployees(listed: seq<Employee>): (r: ResponseContainer<seq<Employee>>)
    ensures r.body == Some(listed)
    ensures r.httpStatus == Some(Ok) <==> listed != []
    ensures r.httpStatus == Some(NoContent) <==> listed == []
    ensures r.message == Some(SuccessMessage) && !r.isError
  {
    GetResponseOfMessageBodyAndStatus(SuccessMessage, Some(listed), if |listed| == 0 then NoContent else Ok)
  }

  /** `GET /employees/{id}`: the employee or null, `OK` exactly when there is one and `NO_CONTENT` exactly when not. */
  function GetEmployeeById(found: Option<Employee>): (r: ResponseContainer<Employee>)
    ensures r.body == found
    ensures r.httpStatus == Some(Ok) <==> found.Some?
    ensures r.httpStatus == Some(NoContent) <==> found.None?
    ensures r.message == Some(SuccessMessage) && !r.isError
  {
    GetResponseOfMessageBodyAndStatus(SuccessMessage, found, if found.Some? then Ok else NoContent)
  }

  /** Listing a well-formed table is marked `OK` exactly when the table has a row. */
  lemma ListingIsOkIffTableNonEmpty(rows: map<int, Employee>, nextId: int)
    requires WellFormed(rows, nextId)
    ensures GetAllEmployees(FindAll(rows, nextId)).httpStatus == Some(Ok) <==> exists k :: k in rows
    ensures GetAllEmployees(FindAll(rows, nextId)).body == Some(FindAll(rows, nextId))
  {
    FindAllIsTheTable(rows, nextId);
  }
}
