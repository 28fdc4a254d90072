/**
 * Whole requests run against a fresh service, through the controller and
 * the exception handler, with the announcements fed to a fresh audit
 * consumer.
 */
module Scenarios {
  import opened Wrappers
  import opened JavaString
  import opened EmployeeEntity
  import opened EmployeeServiceImpl
  import opened KafkaConsumerServiceImpl
  import opened AuditPipeline
  import opened ResponseContainerEntity
  import EmployeeController
  import GlobalExceptionHandler
  import Constants

  /**
   * Create Ann, read her back, delete her, read again. The first read returns
   * exactly what the create returned; the second finds nothing. The audit
   * table then holds the four announcements in order, all for id "1".
   */
  method AnnLifecycle(salary: Salary, now: string)
    returns (created: ResponseContainer<Employee>, fetched: ResponseContainer<Employee>,
             deleted: ResponseContainer<Employee>, refetched: ResponseContainer<Employee>,
             announced: seq<string>, audit: seq<AuditLog>)
    ensures created.httpStatus == Some(Created)
    ensures created.body == Some(Employee(Some(1), Some("Ann"), Some("ann1"), Some("Eng"), Some(salary)))
    ensures fetched.httpStatus == Some(Ok) && fetched.body == created.body
    ensures deleted.httpStatus == Some(NoContent) && deleted.body.None?
    ensures refetched.httpStatus == Some(NoContent) && refetched.body.None?
    ensures announced == [EventMessage(Create, 1), EventMessage(Read, 1), EventMessage(Delete, 1), EventMessage(Read, 1)]
    ensures |audit| == 4
    ensures audit[0].eventType == "CREATE" && audit[1].eventType == "READ"
    ensures audit[2].eventType == "DELETE" && audit[3].eventType == "READ"
    ensures forall i :: 0 <= i < 4 ==>
      audit[i].id == i + 1 && audit[i].entityId == "1" && audit[i].entityName == EntityName && audit[i].timestamp == now
  {
    var service := new EmployeeService();
    var ann := Employee(None, Some("Ann"), Some("ann1"), Some("Eng"), Some(salary));
    var c := service.CreateEmployee(ann);
    assert c == Success(ann.(id := Some(1)));
    var createdResponse := EmployeeController.CreateEmployee(c);
    created := createdResponse.value;

    var f := service.GetEmployeeById(1);
    assert f == Some(ann.(id := Some(1)));
    fetched := EmployeeController.GetEmployeeById(f);

    var d := service.DeleteEmployee(1);
    assert d.Success? && service.employees == map[];
    var deletedResponse := EmployeeController.DeleteEmployee(d);
    deleted := deletedResponse.value;

    var g := service.GetEmployeeById(1);
    refetched := EmployeeController.GetEmployeeById(g);
    announced := service.outbox;

    audit := AuditTrail(announced, now);
  }

  /** The audit rows a fresh consumer writes on receiving, in order, the messages a create, read, delete, read of id 1 sent. */
  method AuditTrail(announced: seq<string>, now: string) returns (audit: seq<AuditLog>)
    requires announced == [EventMessage(Create, 1), EventMessage(Read, 1), EventMessage(Delete, 1), EventMessage(Read, 1)]
    ensures |audit| == 4
    ensures audit[0].eventType == "CREATE" && audit[1].eventType == "READ"
    ensures audit[2].eventType == "DELETE" && audit[3].eventType == "READ"
    ensures forall i :: 0 <= i < 4 ==>
      audit[i].id == i + 1 && audit[i].entityId == "1" && audit[i].entityName == EntityName && audit[i].timestamp == now
  {
    var consumer := new AuditConsumer();
    assert LongToString(1) == "1";
    Deliver(consumer, announced[0], Create, 1, now);
    Deliver(consumer, announced[1], Read, 1, now);
    Deliver(consumer, announced[2], Delete, 1, now);
    Deliver(consumer, announced[3], Read, 1, now);
    audit := consumer.entries;
  }

  /**
   * A second employee with Ann's username is refused: nothing is stored or
   * announced, and the translator answers 409 on the wire with a
   * `BAD_REQUEST` envelope carrying the database message cut at its key name.
   */
  method DuplicateUsername(salary: Salary, databaseMessage: string)
    returns (stored: map<int, Employee>, announced: seq<string>, answer: GlobalExceptionHandler.HandlerResponse)
    ensures stored == map[1 := Employee(Some(1), Some("Ann"), Some("ann1"), Some("Eng"), Some(salary))]
    ensures announced == [EventMessage(Create, 1)]
    ensures answer.responseStatus == Conflict
    ensures answer.container.httpStatus == Some(BadRequest)
    ensures answer.container.body == Some(map[Constants.ErrorKey := GlobalExceptionHandler.ExtractMessage(databaseMessage)])
  {
    var service := new EmployeeService();
    var ann := Employee(None, Some("Ann"), Some("ann1"), Some("Eng"), Some(salary));
    var first := service.CreateEmployee(ann);
    var again := service.CreateEmployee(ann.(name := Some("Annie")));
    assert UsernameTaken(map[1 := ann.(id := Some(1))], 2, Some("ann1"));
    assert again == Failure(DataIntegrityViolation(UniqueUsernameViolation));
    var response := EmployeeController.CreateEmployee(again);
    stored, announced := service.employees, service.outbox;
    GlobalExceptionHandler.ServiceFailureResponse(response.error, databaseMessage);
    answer := GlobalExceptionHandler.Handle(GlobalExceptionHandler.Thrown(response.error, databaseMessage));
  }

  /**
   * Updating an id that was never stored throws from `Optional.get()`; the
   * translator answers 404 on the wire with a `BAD_REQUEST` envelope.
   */
  method UpdateAbsent(id: int, patch: Employee) returns (answer: GlobalExceptionHandler.HandlerResponse)
    ensures answer.responseStatus == NotFound
    ensures answer.container.httpStatus == Some(BadRequest)
    ensures answer.container.message == Some(Constants.ObjectNotFound)
  {
    var service := new EmployeeService();
    var u := service.UpdateEmployee(id, patch);
    var response := EmployeeController.UpdateEmployee(u);
    answer := GlobalExceptionHandler.Handle(GlobalExceptionHandler.Thrown(response.error, ""));
  }
}
