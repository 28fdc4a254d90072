/**
 * The employee service: create, partially update, delete and read employee
 * rows, and announce each call on the `employee_events` topic. The table is
 * held in the service object; the topic is an outbox of the messages sent,
 * oldest first.
 */
module EmployeeServiceImpl {
  import opened Wrappers
  import opened JavaString
  import opened EmployeeEntity

  /** The exceptions a service call lets escape. */
  datatype ServiceError =
    | NoSuchElement                             // `Optional.get()` on an absent id
    | DataIntegrityViolation(violation: Violation) // the table refused the save

  /** The four kinds of event the service announces. */
  datatype EventKind = Create | Update | Delete | Read

  function KindName(kind: EventKind): string
  {
    match kind
    case Create => "CREATE"
    case Update => "UPDATE"
    case Delete => "DELETE"
    case Read => "READ"
  }

  /** The text sent for an event: the kind, `": "`, then the id in decimal. */
  function EventMessage(kind: EventKind, id: int): string
  {
    KindName(kind) + ": " + LongToString(id)
  }

  /** A text value in an update overwrites the stored one only when it is non-null and `trim()` leaves something. */
  predicate Supplied(v: Option<string>)
  {
    v.Some? && Trim(v.value) != ""
  }

  lemma SuppliedIff(v: Option<string>)
    ensures Supplied(v) <==> v.Some? && !IsBlank(v.value)
  {
    if v.Some? {
      TrimEmptyIffBlank(v.value);
    }
  }

  /**
   * The partial update applied to the stored row: name, department and
   * username are taken from the patch when supplied, the salary when it is
   * non-null; the row keeps its own id whatever the patch carries.
   */
  function Merge(existing: Employee, patch: Employee): (r: Employee)
    ensures r.id == existing.id
    ensures r.name == (if patch.name.Some? && !IsBlank(patch.name.value) then patch.name else existing.name)
    ensures r.department ==
      (if patch.department.Some? && !IsBlank(patch.department.value) then patch.department else existing.department)
    ensures r.username ==
      (if patch.username.Some? && !IsBlank(patch.username.value) then patch.username else existing.username)
    ensures r.salary == (if patch.salary.Some? then patch.salary else existing.salary)
    ensures HasRequiredColumns(existing) ==> HasRequiredColumns(r)
  {
    SuppliedIff(patch.name);
    SuppliedIff(patch.department);
    SuppliedIff(patch.username);
    var withName := if Supplied(patch.name) then existing.(name := patch.name) else existing;
    var withDepartment := if Supplied(patch.department) then withName.(department := patch.department) else withName;
    var withSalary := if patch.salary.Some? then withDepartment.(salary := patch.salary) else withDepartment;
    if Supplied(patch.username) then withSalary.(username := patch.username) else withSalary
  }

  /** Applying the same patch twice changes nothing more than applying it once. */
  lemma MergeIdempotent(existing: Employee, patch: Employee)
    ensures Merge(Merge(existing, patch), patch) == Merge(existing, patch)
  {
  }

  class EmployeeService {
    /** The `employees` table: each row under its generated id. */
    var employees: map<int, Employee>
    /** The next value of the table's identity column. */
    var nextId: int
    /** Every message sent to the `employee_events` topic, oldest first. */
    var outbox: seq<string>

    ghost predicate Valid()
      reads this
    {
      WellFormed(employees, nextId)
    }

    constructor ()
      ensures Valid()
      ensures employees == map[] && nextId == 1 && outbox == []
    {
      employees, nextId, outbox := map[], 1, [];
    }

    /** Saves the employee, then announces it with its generated id. */
    method CreateEmployee(employee: Employee) returns (r: Result<Employee, ServiceError>)
      requires Valid()
      modifies this
      ensures Valid()
      ensures match Save(old(employees), old(nextId), employee)
        case Failure(v) =>
          && r == Failure(DataIntegrityViolation(v))
          && employees == old(employees) && nextId == old(nextId) && outbox == old(outbox)
        case Success(s) =>
          && r == Success(s.record)
          && employees == s.rows && nextId == s.nextId
          && outbox == old(outbox) + [EventMessage(Create, s.record.id.value)]
      ensures employee.id.None? && r.Success? ==>
        && r.value.id.Some? && r.value.id.value !in old(employees)
        && r.value == employee.(id := r.value.id)
        && employees == old(employees)[r.value.id.value := r.value]
    {
      var saved := Save(employees, nextId, employee);
      match saved
      case Failure(v) =>
        r := Failure(DataIntegrityViolation(v));
      case Success(s) =>
        if employee.id.None? {
          InsertGetsFreshId(employees, nextId, employee);
        }
        employees, nextId := s.rows, s.nextId;
        outbox := outbox + [EventMessage(Create, s.record.id.value)];
        r := Success(s.record);
    }

    /**
     * Loads the row, applies the patch to it and saves it, then announces
     * the update. An absent id throws before anything changes; a save the
     * table refuses throws before anything is announced.
     */
    method UpdateEmployee(id: int, patch: Employee) returns (r: Result<Employee, ServiceError>)
      requires Valid()
      modifies this
      ensures Valid()
      ensures nextId == old(nextId)
      ensures id !in old(employees) ==>
        r == Failure(NoSuchElement) && employees == old(employees) && outbox == old(outbox)
      ensures id in old(employees) ==>
        var merged := Merge(old(employees)[id], patch);
        if UsernameTaken(old(employees), id, merged.username) then
          && r == Failure(DataIntegrityViolation(UniqueUsernameViolation))
          && employees == old(employees) && outbox == old(outbox)
        else
          && r == Success(merged)
          && employees == old(employees)[id := merged]
          && outbox == old(outbox) + [EventMessage(Update, id)]
    {
      if id !in employees {
        r := Failure(NoSuchElement);
        return;
      }
      var existing := employees[id];
      var merged := Merge(existing, patch);
      var saved := Save(employees, nextId, merged);
      match saved
      case Failure(v) =>
        r := Failure(DataIntegrityViolation(v));
      case Success(s) =>
        employees, nextId := s.rows, s.nextId;
        outbox := outbox + [EventMessage(Update, s.record.id.value)];
        r := Success(s.record);
    }

    /** Removes the row, then announces the deletion; an absent id throws before anything changes. */
    method DeleteEmployee(id: int) returns (r: Result<(), ServiceError>)
      requires Valid()
      modifies this
      ensures Valid()
      ensures nextId == old(nextId)
      ensures id !in old(employees) ==>
        r == Failure(NoSuchElement) && employees == old(employees) && outbox == old(outbox)
      ensures id in old(employees) ==>
        && r == Success(())
        && employees == old(employees) - {id}
        && outbox == old(outbox) + [EventMessage(Delete, id)]
    {
      if id !in employees {
        r := Failure(NoSuchElement);
        return;
      }
      employees := employees - {id};
      outbox := outbox + [EventMessage(Delete, id)];
      r := Success(());
    }

    /** Every stored employee, in the ascending id order `FindAll` picks; nothing is announced and nothing changes. */
    method GetAllEmployees() returns (list: seq<Employee>)
      requires Valid()
      ensures forall k :: k in employees ==> employees[k] in list
      ensures forall e :: e in list ==> e.id.Some? && e.id.value in employees && employees[e.id.value] == e
      ensures forall i, j :: 0 <= i < j < |list| ==> list[i].id.Some? && list[j].id.Some? && list[i].id.value < list[j].id.value
      ensures list == [] <==> forall k :: k !in employees
    {
      list := FindAll(employees, nextId);
      FindAllIsTheTable(employees, nextId);
    }

    /** Announces the read first, then looks the id up; an absent id gives null. */
    method GetEmployeeById(id: int) returns (r: Option<Employee>)
      requires Valid()
      modifies this
      ensures Valid()
      ensures employees == old(employees) && nextId == old(nextId)
      ensures outbox == old(outbox) + [EventMessage(Read, id)]
      ensures r.Some? <==> id in employees
      ensures r.Some? ==> r.value == employees[id]
    {
      outbox := outbox + [EventMessage(Read, id)];
      r := if id in employees then Some(employees[id]) else None;
    }
  }
}
