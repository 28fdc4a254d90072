/**
 * The `Employee` entity and the `employees` table that stores it. The table
 * is a map from generated id to row plus the identity counter; saving a row
 * enforces the column constraints the entity declares (all of name,
 * username, department and salary not null, username unique) the way the
 * database would, by rejecting the save.
 */
module EmployeeEntity {
  import opened Wrappers

  /**
   * A salary is a Java `Double`. It is kept as the 64-bit pattern that
   * `Double.equals` compares; nothing in the service computes with it.
   */
  datatype Salary = Salary(bits: bv64)

  /**
   * An employee row, fields in the order of the all-arguments constructor.
   * Every field is a nullable Java reference; datatype equality is the
   * field-wise equality the entity's generated `equals` provides.
   */
  datatype Employee = Employee(
    id: Option<int>,
    name: Option<string>,
    username: Option<string>,
    department: Option<string>,
    salary: Option<Salary>)

  /** The columns declared `nullable = false` are all set. */
  predicate HasRequiredColumns(e: Employee)
  {
    e.name.Some? && e.username.Some? && e.department.Some? && e.salary.Some?
  }

  /** Why the table refused a save. */
  datatype Violation = NotNullViolation | UniqueUsernameViolation

  /** A row other than the one under `key` already has this username. */
  predicate UsernameTaken(rows: map<int, Employee>, key: int, username: Option<string>)
  {
    exists k :: k in rows && k != key && rows[k].username == username
  }

  predicate UniqueUsernames(rows: map<int, Employee>)
  {
    forall j, k :: j in rows && k in rows && j != k ==> rows[j].username != rows[k].username
  }

  /**
   * The table's invariant: every row is stored under its own id, which the
   * counter has already handed out, has its required columns, and no two
   * rows share a username.
   */
  predicate WellFormed(rows: map<int, Employee>, nextId: int)
  {
    && 1 <= nextId
    && (forall k :: k in rows ==> 1 <= k < nextId && rows[k].id == Some(k) && HasRequiredColumns(rows[k]))
    && UniqueUsernames(rows)
  }

  /** The table after a successful save, and the row as saved. */
  datatype Saved = Saved(rows: map<int, Employee>, nextId: int, record: Employee)

  /**
   * Where a save puts `e`: an entity whose id names a stored row is merged
   * into that row; any other entity is inserted under the next generated id.
   */
  function TargetKey(rows: map<int, Employee>, nextId: int, e: Employee): int
  {
    if e.id.Some? && e.id.value in rows then e.id.value else nextId
  }

  /** The repository's `save`. */
  function Save(rows: map<int, Employee>, nextId: int, e: Employee): (r: Result<Saved, Violation>)
    ensures r.Failure? <==> !HasRequiredColumns(e) || UsernameTaken(rows, TargetKey(rows, nextId, e), e.username)
    ensures !HasRequiredColumns(e) ==> r == Failure(NotNullViolation)
    ensures r.Success? ==>
      && r.value.record.id == Some(TargetKey(rows, nextId, e))
      && r.value.record == e.(id := r.value.record.id)
      && r.value.rows == rows[TargetKey(rows, nextId, e) := r.value.record]
    ensures WellFormed(rows, nextId) && r.Success? ==> WellFormed(r.value.rows, r.value.nextId)
  {
    if !HasRequiredColumns(e) then Failure(NotNullViolation)
    else
      var key := TargetKey(rows, nextId, e);
      if UsernameTaken(rows, key, e.username) then Failure(UniqueUsernameViolation)
      else
        var record := e.(id := Some(key));
        Success(Saved(rows[key := record], if key == nextId then nextId + 1 else nextId, record))
  }

  /**
   * Saving a new entity (no id) inserts it under an id no row had, which the
   * returned row carries, and leaves every other row as it was.
   */
  lemma InsertGetsFreshId(rows: map<int, Employee>, nextId: int, e: Employee)
    requires WellFormed(rows, nextId) && e.id.None?
    requires Save(rows, nextId, e).Success?
    ensures var s := Save(rows, nextId, e).value;
      && s.record.id.Some? && s.record.id.value !in rows
      && s.rows.Keys == rows.Keys + {s.record.id.value}
      && s.rows == rows[s.record.id.value := s.record]
      && s.record == e.(id := s.record.id)
  {
  }

  /** Every row stored under its own id. */
  predicate KeyedById(rows: map<int, Employee>)
  {
    forall k :: k in rows ==> rows[k].id == Some(k)
  }

  /** The rows whose ids lie in `[lo, hi)`, by ascending id. */
  function RowsFrom(rows: map<int, Employee>, lo: int, hi: int): seq<Employee>
    decreases hi - lo
  {
    if lo >= hi then []
    else if lo in rows then [rows[lo]] + RowsFrom(rows, lo + 1, hi)
    else RowsFrom(rows, lo + 1, hi)
  }

  /** Every listed row is a stored row whose id lies in the range. */
  lemma {:induction false} RowsFromAreStored(rows: map<int, Employee>, lo: int, hi: int)
    requires KeyedById(rows)
    decreases hi - lo
    ensures forall e :: e in RowsFrom(rows, lo, hi) ==>
      e.id.Some? && lo <= e.id.value < hi && e.id.value in rows && rows[e.id.value] == e
  {
    if lo < hi {
      RowsFromAreStored(rows, lo + 1, hi);
      var rest := RowsFrom(rows, lo + 1, hi);
      if lo in rows {
        assert RowsFrom(rows, lo, hi) == [rows[lo]] + rest;
      } else {
        assert RowsFrom(rows, lo, hi) == rest;
      }
    }
  }

  /** Every stored row whose id lies in the range is listed. */
  lemma {:induction false} RowsFromAreComplete(rows: map<int, Employee>, lo: int, hi: int)
    decreases hi - lo
    ensures forall k :: lo <= k < hi && k in rows ==> rows[k] in RowsFrom(rows, lo, hi)
  {
    if lo < hi {
      RowsFromAreComplete(rows, lo + 1, hi);
      var rest := RowsFrom(rows, lo + 1, hi);
      if lo in rows {
        assert RowsFrom(rows, lo, hi) == [rows[lo]] + rest;
      } else {
        assert RowsFrom(rows, lo, hi) == rest;
      }
    }
  }

  /** The listed rows have strictly ascending ids. */
  lemma {:induction false} RowsFromAscend(rows: map<int, Employee>, lo: int, hi: int)
    requires KeyedById(rows)
    decreases hi - lo
    ensures forall i, j :: 0 <= i < j < |RowsFrom(rows, lo, hi)| ==>
      RowsFrom(rows, lo, hi)[i].id.Some? && RowsFrom(rows, lo, hi)[j].id.Some? &&
      RowsFrom(rows, lo, hi)[i].id.value < RowsFrom(rows, lo, hi)[j].id.value
  {
    if lo < hi {
      RowsFromAscend(rows, lo + 1, hi);
      RowsFromAreStored(rows, lo + 1, hi);
      var rest := RowsFrom(rows, lo + 1, hi);
      if lo in rows {
        var r := [rows[lo]] + rest;
        assert RowsFrom(rows, lo, hi) == r;
        forall i, j | 0 <= i < j < |r|
          ensures r[i].id.Some? && r[j].id.Some? && r[i].id.value < r[j].id.value
        {
          assert r[j] == rest[j - 1] && r[j] in rest;
          if i > 0 {
            assert r[i] == rest[i - 1];
          }
        }
      } else {
        assert RowsFrom(rows, lo, hi) == rest;
      }
    } else {
      assert RowsFrom(rows, lo, hi) == [];
    }
  }

  /**
   * The repository's `findAll`: every row. The select it runs has no order;
   * listing by ascending id is this model's choice of one.
   */
  function FindAll(rows: map<int, Employee>, nextId: int): seq<Employee>
  {
    RowsFrom(rows, 1, nextId)
  }

  /** `findAll` lists every stored row, each once, by ascending id, and nothing else. */
  lemma FindAllIsTheTable(rows: map<int, Employee>, nextId: int)
    requires WellFormed(rows, nextId)
    ensures forall k :: k in rows ==> rows[k] in FindAll(rows, nextId)
    ensures forall e :: e in FindAll(rows, nextId) ==> e.id.Some? && e.id.value in rows && rows[e.id.value] == e
    ensures forall i, j :: 0 <= i < j < |FindAll(rows, nextId)| ==>
      FindAll(rows, nextId)[i].id.Some? && FindAll(rows, nextId)[j].id.Some? &&
      FindAll(rows, nextId)[i].id.value < FindAll(rows, nextId)[j].id.value
    ensures FindAll(rows, nextId) == [] <==> forall k :: k !in rows
  {
    var all := FindAll(rows, nextId);
    RowsFromAreStored(rows, 1, nextId);
    RowsFromAreComplete(rows, 1, nextId);
    RowsFromAscend(rows, 1, nextId);
    if all != [] {
      assert all[0] in all;
    }
  }
}
