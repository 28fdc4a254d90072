# Employee management service — Dafny model

This project models the core of a Spring employee-management service.
The service offers create, partial update, delete and read of employee
rows over REST. It answers with a uniform response envelope and translates
exceptions into error envelopes. A successful create, update or delete,
and every read by id (found or not), is announced on the `employee_events`
topic; listing all employees and a call that throws announce nothing. A
consumer records each announcement in an `audit_logs` table.

Modules, by the program's own structure:

- `Wrappers`: nullable references (`Option`) and returns-or-throws (`Result`).
- `JavaString`: the parts of `java.lang.String` the code relies on.
  - `indexOf`/`contains`.
  - `split` with a literal pattern and limit 0. A string with no match
    gives one piece; trailing empty pieces are removed.
  - `trim`: strips the leading and trailing characters at or below U+0020.
  - `Long.toString`.
  - `Collectors.joining`.
- `EmployeeEntity`:
  - the `Employee` entity;
  - the `employees` table as a map with its identity counter;
  - the repository's `save` and `findAll`. `save` refuses a row that
    breaks a declared column constraint: not-null, or unique username.
- `EmployeeServiceImpl`:
  - the service as a class, whose state is the table, the counter and an
    outbox of sent messages;
  - the partial-update merge;
  - the event message format `"<TYPE>: <id>"`.
- `KafkaConsumerServiceImpl`: the audit consumer.
  - The message checks of `consume` are a pure `Parse`.
  - The audit table is a class that appends one row per accepted message.
- `AuditPipeline`: the producer's messages against the consumer's parser.
- `ResponseContainerEntity`, `ApiResponseContainer`: the envelope, its
  seven constructors and its seven `getResponse` factories.
- `EmployeeController`: the envelope, HTTP status and message each
  endpoint puts on a service result.
- `GlobalExceptionHandler`: the five exception handlers and `extractMessage`.
  Each handler's result records two statuses: the status its
  `@ResponseStatus` puts on the HTTP response, and the `httpStatus` field
  of the envelope.
- `Constants`: the literal texts of `Constants.java`.
- `Scenarios`: whole request sequences against a fresh service, as three methods.
  - Create, read, delete and read again, with the audit trail this leaves.
  - A duplicate username.
  - An update of an absent id.

Behaviour worth knowing:

- **Absent id on update or delete is caught.** A `NoSuchElementException`
  from an update or delete of an absent id is not left unhandled. The
  exception handler catches it:
  - the HTTP response carries `404`;
  - the envelope carries `BAD_REQUEST`;
  - the body maps "No value present" to itself.

  See `GlobalExceptionHandler.ServiceFailureResponse`.
- **A duplicate username is `409` only on the wire.** The HTTP response
  carries `409`, but the envelope's `httpStatus` is `BAD_REQUEST`.
- **Controller statuses live only in the envelope.** The `201`/`204`/`200`
  of the controller handlers are only the envelope's `httpStatus` field. No
  controller handler sets the HTTP response status, so the wire status of a
  successful call is Spring's default `200`.
- **`@Valid` checks nothing.** `Employee` declares no bean-validation
  constraints. A missing column surfaces only when the save is refused:
  `409` on the wire, `BAD_REQUEST` in the envelope.
- **An update can rename onto a taken username**, and that save is refused.
  The update announces nothing in that case.
- **The consumer accepts more than the `<type>: <id>` shape.**
  `consume` accepts a message with trailing `": "` repetitions, such as
  `"A: B: "`, because `split` drops the empty pieces after them. It
  rejects `"CREATE: "` (an empty id). See `ParseIff`.

## Model

| member | source | states |
|---|---|---|
| JavaString.IndexOf | src/main/java/com/task/emp/mng/sys/service/impl/KafkaConsumerServiceImpl.java:54 | the result is a match of the pattern with no earlier match; none means no position matches |
| JavaString.Contains | src/main/java/com/task/emp/mng/sys/service/impl/KafkaConsumerServiceImpl.java:54 | true exactly when some position matches |
| JavaString.DropTrailingEmpty | src/main/java/com/task/emp/mng/sys/service/impl/KafkaConsumerServiceImpl.java:55 | the result is a prefix of the pieces ending in a non-empty piece, and every piece removed is empty |
| JavaString.SplitOfJoin | src/main/java/com/task/emp/mng/sys/service/impl/KafkaConsumerServiceImpl.java:55 | splitting a join on a delimiter with no border gives the parts back, if no part contains the delimiter and the last of several is non-empty |
| JavaString.SplitEmptyIff | src/main/java/com/task/emp/mng/sys/exception/GlobalExceptionHandler.java:69-70 | `split` returns no parts exactly when the text is the pattern repeated one or more times |
| JavaString.SplitHead | src/main/java/com/task/emp/mng/sys/exception/GlobalExceptionHandler.java:69-71 | the first part is the whole text when it has no match, otherwise the text before the first match |
| JavaString.Split | src/main/java/com/task/emp/mng/sys/service/impl/KafkaConsumerServiceImpl.java:55 | `split` with a literal pattern and limit 0, specified by `SplitOfJoin`, `SplitEmptyIff` and `SplitHead` |
| JavaString.Trim | src/main/java/com/task/emp/mng/sys/service/impl/EmployeeServiceImpl.java:43-58 | `trim()`, specified by `TrimEmptyIffBlank` |
| JavaString.TrimEmptyIffBlank | src/main/java/com/task/emp/mng/sys/service/impl/EmployeeServiceImpl.java:43 | `trim()` is empty exactly when every character is at most U+0020 |
| JavaString.LongToStringInjective | src/main/java/com/task/emp/mng/sys/service/impl/EmployeeServiceImpl.java:74 | distinct ids have distinct decimal texts |
| JavaString.LongToStringSign | src/main/java/com/task/emp/mng/sys/service/impl/EmployeeServiceImpl.java:32 | the text starts with '-' exactly for negative ids, followed by the digits of the magnitude |
| JavaString.DigitsValueOfDigits | src/main/java/com/task/emp/mng/sys/service/impl/EmployeeServiceImpl.java:32 | the decimal digits of a natural number read back as that number |
| EmployeeEntity.Save | src/main/java/com/task/emp/mng/sys/entity/Employee.java:37-63 | refused exactly when a required column is null or another row has the username, with the not-null refusal first; otherwise the row is stored under its own id, or under a fresh one if the id is not stored, and the table invariant is kept |
| EmployeeEntity.InsertGetsFreshId | src/main/java/com/task/emp/mng/sys/entity/Employee.java:37-39 | saving an entity without id stores it under an id no row had and leaves every other row alone |
| EmployeeEntity.RowsFromAreStored | src/main/java/com/task/emp/mng/sys/repository/EmployeeRepository.java:27 | every row listed for an id range is the row stored under its id, which lies in the range |
| EmployeeEntity.RowsFromAreComplete | src/main/java/com/task/emp/mng/sys/repository/EmployeeRepository.java:27 | every row stored under an id in the range is listed |
| EmployeeEntity.RowsFromAscend | src/main/java/com/task/emp/mng/sys/repository/EmployeeRepository.java:27 | the listed rows have strictly ascending ids, so none is listed twice |
| EmployeeEntity.FindAll | src/main/java/com/task/emp/mng/sys/repository/EmployeeRepository.java:27 | `findAll`, specified by `FindAllIsTheTable` and the three `RowsFrom` lemmas |
| EmployeeEntity.FindAllIsTheTable | src/main/java/com/task/emp/mng/sys/service/impl/EmployeeServiceImpl.java:81-83 | `findAll` lists every stored row and only stored rows, by ascending id (an order this model picks), and is empty exactly when no id is stored |
| EmployeeServiceImpl.EventMessage | src/main/java/com/task/emp/mng/sys/service/impl/EmployeeServiceImpl.java:32-90 | the text sent for an event, `"<TYPE>: <id>"`, specified by `AuditPipeline.EventRoundTrip` and `AuditPipeline.EventsAreDistinguishable` |
| EmployeeServiceImpl.SuppliedIff | src/main/java/com/task/emp/mng/sys/service/impl/EmployeeServiceImpl.java:43-60 | a patch value is used exactly when it is non-null and not blank |
| EmployeeServiceImpl.Merge | src/main/java/com/task/emp/mng/sys/service/impl/EmployeeServiceImpl.java:43-60 | each text column is taken from the patch when non-null and non-blank; salary when non-null; the id is kept; required columns stay set |
| EmployeeServiceImpl.MergeIdempotent | src/main/java/com/task/emp/mng/sys/service/impl/EmployeeServiceImpl.java:43-60 | applying the same patch twice gives the same row as once |
| EmployeeServiceImpl.EmployeeService.constructor | src/main/java/com/task/emp/mng/sys/service/impl/EmployeeServiceImpl.java:15-24 | an empty table whose first generated id is 1, and nothing sent |
| EmployeeServiceImpl.EmployeeService.CreateEmployee | src/main/java/com/task/emp/mng/sys/service/impl/EmployeeServiceImpl.java:30-34 | a refused save throws and changes nothing; otherwise the row is stored and "CREATE: <id>" is sent; an entity without id gets a fresh id and the rest of the row as given |
| EmployeeServiceImpl.EmployeeService.UpdateEmployee | src/main/java/com/task/emp/mng/sys/service/impl/EmployeeServiceImpl.java:40-65 | an absent id throws NoSuchElement and a taken username throws a data-integrity violation, both changing nothing; otherwise the merged row replaces the stored one and "UPDATE: <id>" is sent |
| EmployeeServiceImpl.EmployeeService.DeleteEmployee | src/main/java/com/task/emp/mng/sys/service/impl/EmployeeServiceImpl.java:71-75 | an absent id throws NoSuchElement and changes nothing; otherwise exactly that row is removed and "DELETE: <id>" is sent |
| EmployeeServiceImpl.EmployeeService.GetAllEmployees | src/main/java/com/task/emp/mng/sys/service/impl/EmployeeServiceImpl.java:81-83 | every stored row and only stored rows, each the row under its id, in ascending id order (an order this model picks); empty exactly when no id is stored; nothing changes |
| EmployeeServiceImpl.EmployeeService.GetEmployeeById | src/main/java/com/task/emp/mng/sys/service/impl/EmployeeServiceImpl.java:89-93 | "READ: <id>" is sent whether or not the row exists; the table is unchanged; the stored row, or null exactly when the id is absent |
| KafkaConsumerServiceImpl.Parse | src/main/java/com/task/emp/mng/sys/service/impl/KafkaConsumerServiceImpl.java:54-77 | the message checks of `consume`, specified by `ParseIff` |
| KafkaConsumerServiceImpl.ParseIff | src/main/java/com/task/emp/mng/sys/service/impl/KafkaConsumerServiceImpl.java:54-60 | a message is accepted as (type, id) exactly when it is type, ": ", a non-empty id, then any number of ": ", with neither part containing ": " |
| KafkaConsumerServiceImpl.ParseCreate42 | src/main/java/com/task/emp/mng/sys/service/impl/KafkaConsumerServiceImpl.java:54-60 | "CREATE: 42" is read as type "CREATE" and id "42" |
| KafkaConsumerServiceImpl.ParseTrailingDelimiter | src/main/java/com/task/emp/mng/sys/service/impl/KafkaConsumerServiceImpl.java:55-58 | "A: B: " is accepted as (A, B), because the trailing empty piece is dropped |
| KafkaConsumerServiceImpl.ParseNoDelimiter | src/main/java/com/task/emp/mng/sys/service/impl/KafkaConsumerServiceImpl.java:54-77 | every message without ": " is dropped |
| KafkaConsumerServiceImpl.ParseGarbage | src/main/java/com/task/emp/mng/sys/service/impl/KafkaConsumerServiceImpl.java:54-77 | "garbage" is dropped, having no ": " |
| KafkaConsumerServiceImpl.ParseThreeParts | src/main/java/com/task/emp/mng/sys/service/impl/KafkaConsumerServiceImpl.java:58 | "A: B: C" is dropped (three parts) |
| KafkaConsumerServiceImpl.ParseEmptyId | src/main/java/com/task/emp/mng/sys/service/impl/KafkaConsumerServiceImpl.java:55-58 | "CREATE: " is dropped (one part after the trailing empty piece goes) |
| KafkaConsumerServiceImpl.ParseOnlyDelimiter | src/main/java/com/task/emp/mng/sys/service/impl/KafkaConsumerServiceImpl.java:55-58 | ": " is dropped (split gives no parts) |
| KafkaConsumerServiceImpl.AuditConsumer.constructor | src/main/java/com/task/emp/mng/sys/entity/AuditLog.java:36-38 | an empty audit table whose first generated id is 1 |
| KafkaConsumerServiceImpl.AuditConsumer.Consume | src/main/java/com/task/emp/mng/sys/service/impl/KafkaConsumerServiceImpl.java:52-78 | a rejected message changes nothing; an accepted one appends one row with the next id, its type and id, entity "Employee" and the clock reading; the rows keep the ids 1, 2, ... in insertion order |
| AuditPipeline.EventRoundTrip | src/main/java/com/task/emp/mng/sys/service/impl/KafkaConsumerServiceImpl.java:52-69 | every message the service sends is accepted, with its event type and the id's decimal text |
| AuditPipeline.EventsAreDistinguishable | src/main/java/com/task/emp/mng/sys/service/impl/EmployeeServiceImpl.java:32 | two messages read alike only if they have the same kind and the same id |
| AuditPipeline.Deliver | src/main/java/com/task/emp/mng/sys/service/impl/KafkaConsumerServiceImpl.java:52-69 | delivering a message the service sent appends exactly one audit row with that kind and id |
| ResponseContainerEntity.Defaults | src/main/java/com/task/emp/mng/sys/response/ResponseContainerEntity.java:28-43 | before a constructor runs, every field is null and the error flag false |
| ResponseContainerEntity.OfBody | src/main/java/com/task/emp/mng/sys/response/ResponseContainerEntity.java:50-52 | only the body is set |
| ResponseContainerEntity.OfStatus | src/main/java/com/task/emp/mng/sys/response/ResponseContainerEntity.java:59-62 | only the status is set |
| ResponseContainerEntity.OfMessageAndBody | src/main/java/com/task/emp/mng/sys/response/ResponseContainerEntity.java:70-73 | only the message and the body are set |
| ResponseContainerEntity.OfMessageBodyAndStatus | src/main/java/com/task/emp/mng/sys/response/ResponseContainerEntity.java:83-87 | message, body and status are set; the error flag is false |
| ResponseContainerEntity.OfMessageAndStatus | src/main/java/com/task/emp/mng/sys/response/ResponseContainerEntity.java:95-98 | only the message and the status are set |
| ResponseContainerEntity.OfMessageBodyAndError | src/main/java/com/task/emp/mng/sys/response/ResponseContainerEntity.java:108-112 | message, body and error flag are set; the status is null |
| ResponseContainerEntity.OfAll | src/main/java/com/task/emp/mng/sys/response/ResponseContainerEntity.java:123-128 | all four fields are set as given |
| ApiResponseContainer.GetResponseOfBody | src/main/java/com/task/emp/mng/sys/response/ApiResponseContainer.java:28-30 | only the body is set |
| ApiResponseContainer.GetResponseOfStatus | src/main/java/com/task/emp/mng/sys/response/ApiResponseContainer.java:39-41 | only the status is set |
| ApiResponseContainer.GetResponseOfMessageAndBody | src/main/java/com/task/emp/mng/sys/response/ApiResponseContainer.java:51-53 | only the message and the body are set |
| ApiResponseContainer.GetResponseOfMessageAndStatus | src/main/java/com/task/emp/mng/sys/response/ApiResponseContainer.java:63-65 | only the message and the status are set |
| ApiResponseContainer.GetResponseOfMessageBodyAndStatus | src/main/java/com/task/emp/mng/sys/response/ApiResponseContainer.java:76-78 | message, body and status are set; not an error |
| ApiResponseContainer.GetResponseOfMessageBodyAndError | src/main/java/com/task/emp/mng/sys/response/ApiResponseContainer.java:89-91 | message, body and error flag are set; the status is null |
| ApiResponseContainer.GetResponseOfAll | src/main/java/com/task/emp/mng/sys/response/ApiResponseContainer.java:105-108 | all four fields are set as given |
| EmployeeController.CreateEmployee | src/main/java/com/task/emp/mng/sys/controller/EmployeeController.java:48-51 | a service exception passes through; otherwise the saved row, marked CREATED with the created message, not an error |
| EmployeeController.UpdateEmployee | src/main/java/com/task/emp/mng/sys/controller/EmployeeController.java:60-63 | a service exception passes through; otherwise the merged row, marked CREATED (not OK) with the updated message |
| EmployeeController.DeleteEmployee | src/main/java/com/task/emp/mng/sys/controller/EmployeeController.java:71-75 | a service exception passes through; otherwise no body, marked NO_CONTENT with the deleted message |
| EmployeeController.GetAllEmployees | src/main/java/com/task/emp/mng/sys/controller/EmployeeController.java:82-86 | the list is always the body; OK exactly when it is non-empty and NO_CONTENT exactly when empty |
| EmployeeController.GetEmployeeById | src/main/java/com/task/emp/mng/sys/controller/EmployeeController.java:94-98 | the row or null is the body; OK exactly when found and NO_CONTENT exactly when not |
| EmployeeController.ListingIsOkIffTableNonEmpty | src/main/java/com/task/emp/mng/sys/controller/EmployeeController.java:82-86 | listing a well-formed table is marked OK exactly when the table has a row |
| GlobalExceptionHandler.ExtractMessage | src/main/java/com/task/emp/mng/sys/exception/GlobalExceptionHandler.java:68-74 | the result is a prefix of the message, and the whole message when it has no " for key " |
| GlobalExceptionHandler.ExtractMessageCutsAtFirstKey | src/main/java/com/task/emp/mng/sys/exception/GlobalExceptionHandler.java:68-74 | with a match, the text before the first " for key ", except for a message that is only repetitions of it, which is kept whole |
| GlobalExceptionHandler.ExtractDuplicateEntry | src/main/java/com/task/emp/mng/sys/exception/GlobalExceptionHandler.java:68-74 | "Duplicate entry 'ann1' for key 'employees.username'" becomes "Duplicate entry 'ann1'" |
| GlobalExceptionHandler.ExtractBeforeFirstKey | src/main/java/com/task/emp/mng/sys/exception/GlobalExceptionHandler.java:68-74 | a non-empty text in which no " for key " starts, followed by " for key " and anything, is cut back to that text |
| GlobalExceptionHandler.HandleDataIntegrityViolation | src/main/java/com/task/emp/mng/sys/exception/GlobalExceptionHandler.java:52-59 | 409 on the wire, BAD_REQUEST in an error envelope with "Invalid request content" and a single "error" entry holding the extracted cause |
| GlobalExceptionHandler.HandleNoSuchElement | src/main/java/com/task/emp/mng/sys/exception/GlobalExceptionHandler.java:83-91 | 404 on the wire, BAD_REQUEST in an error envelope with "Object Not Found" and the message mapped to itself |
| GlobalExceptionHandler.HandleNoResourceFound | src/main/java/com/task/emp/mng/sys/exception/GlobalExceptionHandler.java:100-107 | NOT_FOUND on the wire and in an error envelope with "Resource Not Found" and a single "error" entry |
| GlobalExceptionHandler.HandleMethodNotSupported | src/main/java/com/task/emp/mng/sys/exception/GlobalExceptionHandler.java:116-127 | METHOD_NOT_ALLOWED on the wire and in the envelope, with exactly the error, attempted method and ", "-joined supported methods entries |
| GlobalExceptionHandler.SupportedMethodsReadBack | src/main/java/com/task/emp/mng/sys/exception/GlobalExceptionHandler.java:122 | the joined supported methods split back into the method names, and are empty when there are none |
| GlobalExceptionHandler.HandleMessageNotReadable | src/main/java/com/task/emp/mng/sys/exception/GlobalExceptionHandler.java:136-145 | BAD_REQUEST on the wire and in the envelope, with exactly the fixed error and message entries and the details |
| GlobalExceptionHandler.Handle | src/main/java/com/task/emp/mng/sys/exception/GlobalExceptionHandler.java:42-146 | every answer is an error envelope with a message, a body and a 4xx status; wire and envelope status differ exactly for data-integrity and lookup failures |
| GlobalExceptionHandler.Thrown | src/main/java/com/task/emp/mng/sys/service/impl/EmployeeServiceImpl.java:40-75 | the exception a failed service call throws, specified by `ServiceFailureResponse` |
| GlobalExceptionHandler.ServiceFailureResponse | src/main/java/com/task/emp/mng/sys/exception/GlobalExceptionHandler.java:52-91 | an absent id is answered 404 / BAD_REQUEST with "No value present" mapped to itself; a refused save 409 / BAD_REQUEST with the extracted cause |
| Scenarios.AnnLifecycle | src/main/java/com/task/emp/mng/sys/controller/EmployeeController.java:48-98 | create gives CREATED with id 1; the read returns the same row with OK; delete gives NO_CONTENT; the second read gives NO_CONTENT and null; the audit table holds CREATE, READ, DELETE, READ for id "1" |
| Scenarios.AuditTrail | src/main/java/com/task/emp/mng/sys/service/impl/KafkaConsumerServiceImpl.java:52-69 | the four messages a create, read, delete, read of id 1 sends, consumed in order, leave rows 1-4 of types CREATE, READ, DELETE, READ for id "1" |
| Scenarios.DuplicateUsername | src/main/java/com/task/emp/mng/sys/exception/GlobalExceptionHandler.java:52-59 | a second row with a taken username is neither stored nor announced, and is answered 409 with a BAD_REQUEST envelope |
| Scenarios.UpdateAbsent | src/main/java/com/task/emp/mng/sys/service/impl/EmployeeServiceImpl.java:41-42 | an update of an absent id is answered 404 with a BAD_REQUEST envelope and "Object Not Found" |

## Left out

- The Kafka transport is not modelled. A sent message is appended to the
  service's outbox, and delivery is an explicit call. Partitions,
  redelivery, consumer groups and concurrency are left out.
- The database engine, SQL, transactions and the JPA persistence context
  are left out. The table is a map with an identity counter.
- `save` with an id that names no stored row inserts under a fresh id.
  This follows the merge behaviour of Hibernate releases before 6.6.
- The identity counter advances only on a successful insert. The gaps a
  real database leaves after a refused insert are not modelled.
- `findAll` returns the rows by ascending id. That order is a choice of
  the model: the repository's unordered select returns rows in whatever
  order the database gives.
- Usernames are compared by exact text equality. A database unique index
  compares under the column's collation, which may ignore case.
- Ids are unbounded integers, not 64-bit `Long`; no overflow is modelled.
- `Salary` is the 64-bit pattern of the `Double` that `Double.equals`
  compares. No floating-point arithmetic is needed, since the code does none.
- Which column a not-null refusal names is not modelled.
- The database's message text is a parameter, since the database writes it;
  so is the message of every framework exception.
- A null exception message, and a null message or status passed to the
  envelope, are not modelled: the code never passes null for those. A
  null body is modelled (`None`), as for a read of an absent id.
- `getSupportedHttpMethods()` returning null is not modelled; that would
  throw instead of answering.
- The supported methods are a sequence in the order the framework's set
  iterates. That order is not modelled.
- `LocalDateTime.now()` is a parameter `now`, the clock's text.
- `System.err` reports of dropped messages are left out: they change no state.
- Entity setters mutate the loaded row in place. Here the row is a value:
  the merge builds the new row and the table stores it, so no alias of the
  old row is observable.
- The empty-pattern form of `split` is not modelled, and neither are
  regex meta-characters. Both patterns used, `": "` and `" for key "`,
  are literal text.
- Bean validation (`@Valid`) is not modelled. `Employee` declares no
  constraints, so it rejects nothing.
- Request routing, JSON serialization and the HTTP server are left out.
  The wire status of a controller response is Spring's default `200`, and
  is not represented.
