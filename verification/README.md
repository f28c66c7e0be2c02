# Employee management system: a Dafny model

The system is a small REST service. It keeps employee records in one in-memory
list. Its endpoints list, add, update and delete records, run three filtered
queries, and perform two business transitions: applying for annual leave and
promoting an employee to supervisor. Each record is checked by Bean-Validation
annotations before it may be added or used to overwrite another.

This project models the two parts that carry logic.

- **The record and its validation** (`employee.dfy`, module `Employees`).
  `Employee` has the nine fields of the Java class. Each validation annotation
  except `@NotNull`, which only rejects null, is one `Constraint`. `Violations` is the set of annotations a candidate
  breaks, and `Valid` holds when that set is empty. This mirrors
  `errors.hasErrors()`. The three `@Pattern` regular expressions are written
  as values of a small regex type (`patterns.dfy`, module `Patterns`), matched
  against the whole string as `Matcher.matches()` does. Lemmas prove what each
  pattern accepts in plain terms.
- **The directory** (`directory.dfy`, module `Directory`). The list is a
  `seq<Employee>`. Every endpoint is a pure function from the list to a
  `Reply`: an outcome kind plus the list afterwards. Lookups scan front to
  back and stop at the first id match, as the controller's helper does. The
  update endpoint locates the record with `indexOf`, and the delete endpoint
  removes it with `remove(Object)`. Both search by record equality, and
  `IndexOfFirstMatch` proves that such a search lands on the first id match.
- **Laws** (`directory_laws.dfy`, module `DirectoryLaws`) relate operations to
  each other. They cover lookup after add, update and delete, when ids stay
  unique, what repeating a leave request or a promotion does, and an invariant
  on stored records. Every write preserves that invariant.
- **Scenarios** (`scenarios.dfy`, module `Scenarios`) are concrete runs: the
  leave workflow on a fresh record, a promotion by an unknown requester, and
  two runs showing what duplicate or changed ids allow.

Three points about the code shape the model:

- Bean Validation fixes no order among violations, and the controller reports
  whichever one `errors.getFieldError()` returns. The model therefore decides
  only valid or invalid.
- The controller never checks that ids are unique. The model states uniqueness
  as an explicit predicate, `NoDupIds`. Of the laws about lookup after a
  write, only `DeleteThenNotFound` needs it. `AddKeepsIdsUnique` and
  `UpdateKeepsIdsUnique` assume it and show exactly when the add and update
  endpoints lose it.
- Position is a string constrained by a `@Pattern`, so the model keeps it a
  string, and the position filter compares strings.

## Model

| member | source | states |
|---|---|---|
| Employees.NamePatternMatches | EmployeeManagementSystem/src/main/java/com/example/employeemanagementsystem/Model/Employee.java:21-24 | the name pattern accepts exactly the non-empty strings made only of A–Z and a–z |
| Employees.PhonePatternMatches | EmployeeManagementSystem/src/main/java/com/example/employeemanagementsystem/Model/Employee.java:30-34 | the phone pattern accepts exactly the strings of length 10 that start with '0' then '5' and consist only of digits |
| Employees.PositionPatternMatches | EmployeeManagementSystem/src/main/java/com/example/employeemanagementsystem/Model/Employee.java:41-44 | the position pattern accepts "supervisor" and "coordinator" and no other string |
| Employees.ValidIff | EmployeeManagementSystem/src/main/java/com/example/employeemanagementsystem/Model/Employee.java:17-65 | a record passes validation iff id length ≥ 3, name is 5–15 ASCII letters, email is non-blank and well-formed, phone is 05 plus 8 digits, 26 ≤ age ≤ 65, position is one of the two names, not on leave, hire date ≤ today, and leave balance > 0 (both directions) |
| Employees.Valid | EmployeeManagementSystem/src/main/java/com/example/employeemanagementsystem/Controller/EmployeeController.java:30-31 | a request body passes `@Valid` with no errors bound exactly when every one of the record's annotations holds |
| Patterns.PlusClassMatches | EmployeeManagementSystem/src/main/java/com/example/employeemanagementsystem/Model/Employee.java:23 | `[class]+` matches exactly the non-empty strings whose every character is in the class |
| Patterns.RepeatClassMatches | EmployeeManagementSystem/src/main/java/com/example/employeemanagementsystem/Model/Employee.java:33 | `[class]{n}` matches exactly the strings of length n whose every character is in the class |
| Directory.FirstIndex | EmployeeManagementSystem/src/main/java/com/example/employeemanagementsystem/Controller/EmployeeController.java:42-49 | the scan returns the first position whose id equals the key, and returns none iff no record has that id |
| Directory.FindEmployeeById | EmployeeManagementSystem/src/main/java/com/example/employeemanagementsystem/Controller/EmployeeController.java:42-49 | the lookup returns the record at the first id match, or none iff no record has the id |
| Directory.IndexOfFirstMatch | EmployeeManagementSystem/src/main/java/com/example/employeemanagementsystem/Controller/EmployeeController.java:62 | `indexOf` on the record the id scan found returns the scan's own position |
| Directory.IndexOf | EmployeeManagementSystem/src/main/java/com/example/employeemanagementsystem/Controller/EmployeeController.java:62 | `indexOf` by record equality returns none iff no equal record is present, and otherwise the first position holding an equal record |
| Directory.RemoveFirst | EmployeeManagementSystem/src/main/java/com/example/employeemanagementsystem/Controller/EmployeeController.java:75 | `remove(Object)` leaves the list alone when no equal record is present, and otherwise drops exactly the first equal record, keeping the order of the rest |
| Directory.RemoveFirstCount | EmployeeManagementSystem/src/main/java/com/example/employeemanagementsystem/Controller/EmployeeController.java:75 | removal takes away exactly one occurrence of the record when present, and keeps every other record as often as before |
| Directory.GetEmployees | EmployeeManagementSystem/src/main/java/com/example/employeemanagementsystem/Controller/EmployeeController.java:23-26 | listing returns every record in insertion order and leaves the list unchanged |
| Directory.AddEmployee | EmployeeManagementSystem/src/main/java/com/example/employeemanagementsystem/Controller/EmployeeController.java:29-37 | Created iff the candidate is valid, and then the list grows by exactly the candidate at the end with the old prefix intact; otherwise InvalidInput with the list unchanged |
| Directory.UpdateEmployee | EmployeeManagementSystem/src/main/java/com/example/employeemanagementsystem/Controller/EmployeeController.java:52-64 | an unknown id gives NotFound even for an invalid candidate; a known id with an invalid candidate gives InvalidInput with no change; otherwise Updated, the same length, the candidate (with its own id) at the first-match position and every other position unchanged |
| Directory.DeleteEmployee | EmployeeManagementSystem/src/main/java/com/example/employeemanagementsystem/Controller/EmployeeController.java:69-77 | an unknown id gives NotFound with no change; otherwise Deleted, the length drops by one and the list is the old one without its first match, in the same order |
| Directory.Filter | EmployeeManagementSystem/src/main/java/com/example/employeemanagementsystem/Controller/EmployeeController.java:85-90 | the filtered list holds each selected record as many times as the directory does, and no other record |
| Directory.FilterAppend | EmployeeManagementSystem/src/main/java/com/example/employeemanagementsystem/Controller/EmployeeController.java:85-90 | filtering preserves order: filtering a concatenation concatenates the filtered parts |
| Directory.Query | EmployeeManagementSystem/src/main/java/com/example/employeemanagementsystem/Controller/EmployeeController.java:91-94 | a query never changes the list, gives EmptyResult iff no record is selected, and otherwise lists the filtered records |
| Directory.SearchByPosition | EmployeeManagementSystem/src/main/java/com/example/employeemanagementsystem/Controller/EmployeeController.java:83-95 | no change to the list; EmptyResult iff no record has the position; otherwise the order-preserving list of exactly the records with that position |
| Directory.EmployeesByAge | EmployeeManagementSystem/src/main/java/com/example/employeemanagementsystem/Controller/EmployeeController.java:100-112 | no change to the list; EmptyResult iff no age lies in [min, max], in particular whenever min > max; otherwise exactly the records in range, in order |
| Directory.EmployeesWithNoLeave | EmployeeManagementSystem/src/main/java/com/example/employeemanagementsystem/Controller/EmployeeController.java:141-153 | no change to the list; EmptyResult iff no record has a zero balance; otherwise exactly those records, in order |
| Directory.ApplyAnnualLeave | EmployeeManagementSystem/src/main/java/com/example/employeemanagementsystem/Controller/EmployeeController.java:122-138 | checks run in the order NotFound, AlreadyOnLeave (whatever the balance), InsufficientLeave (balance ≤ 0); on success only the found record changes, becoming on leave with one day less; every refusal leaves the list unchanged; ids never change |
| Directory.PromoteEmployee | EmployeeManagementSystem/src/main/java/com/example/employeemanagementsystem/Controller/EmployeeController.java:161-180 | Unauthorized unless the requester's first match is a supervisor; then NotFound, AlreadySupervisor, CriteriaNotMet in that order; success changes only the target's position, to supervisor; ids never change |
| DirectoryLaws.AddThenFind | EmployeeManagementSystem/src/main/java/com/example/employeemanagementsystem/Controller/EmployeeController.java:29-37 | after adding a valid record with a new id, lookup by that id returns it; if the id was already present, the lookup answer is unchanged |
| DirectoryLaws.AddKeepsIdsUnique | EmployeeManagementSystem/src/main/java/com/example/employeemanagementsystem/Controller/EmployeeController.java:29-37 | from unique ids, adding keeps them unique iff the candidate is rejected or its id is new (no duplicate check) |
| DirectoryLaws.UpdateThenFind | EmployeeManagementSystem/src/main/java/com/example/employeemanagementsystem/Controller/EmployeeController.java:52-64 | after a successful update that keeps the id, lookup by that id returns the candidate |
| DirectoryLaws.UpdateKeepsIdsUnique | EmployeeManagementSystem/src/main/java/com/example/employeemanagementsystem/Controller/EmployeeController.java:52-64 | from unique ids, an update keeps them unique iff it does not succeed (unknown id or invalid candidate), keeps the id, or renames to an id no record holds |
| DirectoryLaws.DeleteThenNotFound | EmployeeManagementSystem/src/main/java/com/example/employeemanagementsystem/Controller/EmployeeController.java:69-77 | with unique ids, lookup of a deleted id returns none and the ids remain unique |
| DirectoryLaws.ApplyLeaveTwice | EmployeeManagementSystem/src/main/java/com/example/employeemanagementsystem/Controller/EmployeeController.java:122-138 | a second leave request right after a granted one is refused as AlreadyOnLeave and changes nothing |
| DirectoryLaws.PromoteSucceedsIff | EmployeeManagementSystem/src/main/java/com/example/employeemanagementsystem/Controller/EmployeeController.java:161-180 | promotion succeeds iff the requester is a supervisor and the target exists, is not a supervisor, is at least 30 and is not on leave; the requester's own age and leave are not consulted |
| DirectoryLaws.PromoteAuthorizationIgnoresTarget | EmployeeManagementSystem/src/main/java/com/example/employeemanagementsystem/Controller/EmployeeController.java:163-166 | whether a promotion is refused as Unauthorized is the same for every target, and happens iff the requester is not a supervisor |
| DirectoryLaws.PromoteTwice | EmployeeManagementSystem/src/main/java/com/example/employeemanagementsystem/Controller/EmployeeController.java:161-180 | repeating a successful promotion gives AlreadySupervisor and changes nothing |
| DirectoryLaws.ValidIsStored | EmployeeManagementSystem/src/main/java/com/example/employeemanagementsystem/Model/Employee.java:60-65 | a record that passes validation meets the stored-record invariant |
| DirectoryLaws.TakeLeaveStored | EmployeeManagementSystem/src/main/java/com/example/employeemanagementsystem/Controller/EmployeeController.java:131-133 | granting leave keeps a record within the invariant: every annotation but the two creation-time ones still holds and the balance stays ≥ 0 |
| DirectoryLaws.PromoteStored | EmployeeManagementSystem/src/main/java/com/example/employeemanagementsystem/Controller/EmployeeController.java:175 | promotion writes a position the validator accepts, so the record stays within the invariant |
| DirectoryLaws.AddKeepsWellFormed | EmployeeManagementSystem/src/main/java/com/example/employeemanagementsystem/Controller/EmployeeController.java:29-37 | adding preserves the stored-record invariant of the whole list |
| DirectoryLaws.UpdateKeepsWellFormed | EmployeeManagementSystem/src/main/java/com/example/employeemanagementsystem/Controller/EmployeeController.java:52-64 | updating preserves the stored-record invariant of the whole list |
| DirectoryLaws.DeleteKeepsWellFormed | EmployeeManagementSystem/src/main/java/com/example/employeemanagementsystem/Controller/EmployeeController.java:69-77 | deleting preserves the stored-record invariant of the whole list |
| DirectoryLaws.ApplyLeaveKeepsWellFormed | EmployeeManagementSystem/src/main/java/com/example/employeemanagementsystem/Controller/EmployeeController.java:122-138 | a leave request preserves the invariant; in particular no balance ever goes below 0 |
| DirectoryLaws.PromoteKeepsWellFormed | EmployeeManagementSystem/src/main/java/com/example/employeemanagementsystem/Controller/EmployeeController.java:161-180 | a promotion preserves the stored-record invariant of the whole list |
| Scenarios.FatimaIsValid | EmployeeManagementSystem/src/main/java/com/example/employeemanagementsystem/Model/Employee.java:17-65 | the sample record (id E001, age 28, coordinator, balance 5) passes validation when its email is well-formed and its hire date is not in the future |
| Scenarios.LeaveWorkflow | EmployeeManagementSystem/src/main/java/com/example/employeemanagementsystem/Controller/EmployeeController.java:122-138 | adding the sample record gives Created; its first leave request gives Applied with the flag set and balance 4; the second gives AlreadyOnLeave |
| Scenarios.PromoteByUnknownRequester | EmployeeManagementSystem/src/main/java/com/example/employeemanagementsystem/Controller/EmployeeController.java:163-166 | a requester id that matches no record is refused as Unauthorized for every target |
| Scenarios.DeleteLeavesDuplicate | EmployeeManagementSystem/src/main/java/com/example/employeemanagementsystem/Controller/EmployeeController.java:69-77 | with two records sharing an id, delete removes only the first and the id is still found, so the uniqueness precondition of DeleteThenNotFound is needed |
| Scenarios.UpdateRenames | EmployeeManagementSystem/src/main/java/com/example/employeemanagementsystem/Controller/EmployeeController.java:52-64 | an update addressed by E001 with a candidate whose id is E002 stores E002, after which E001 finds nothing |

## Left out

- Web plumbing is not modelled: routing, `ResponseEntity`, numeric status codes, message strings and the `Response` payload class. Each endpoint's result is an outcome kind.
- Which message `errors.getFieldError()` returns when several annotations fail is not modelled, because Bean Validation does not order violations. Only valid versus invalid is modelled.
- `@Email` is not modelled. Its rules live inside the validation framework, so the model takes them as the abstract parameter `Env.isEmail`. `@NotBlank` is modelled as `String.trim` would judge it.
- JSON and date parsing and the real clock are left out. `hireDate` and the current date are whole days (`Env.today`), and a time of day is ignored.
- Null fields are not modelled. Every field in the model holds a value. A null in any field would break that field's `@NotNull`, `@NotEmpty` or `@NotBlank` annotation, and those are the only annotations that react to null.
- Lengths are counted in Unicode scalar values, while `@Size` counts UTF-16 units. The two differ only for an id holding characters outside the Basic Multilingual Plane. The name pattern admits ASCII letters only, so name lengths agree.
- 32-bit integer width is not modelled for `age` and `annualLeave`. The only arithmetic is decrementing a positive balance, which cannot overflow.
- The request-parameter annotations on the position and age queries are not modelled. They are boundary checks whose enforcement depends on the Spring version, so the model's filters accept any position string and any bounds.
- The service shares one unsynchronised list across requests. The model runs operations one at a time.
- Java object identity and in-place mutation are not modelled. Each request deserialises a fresh object, so no object appears twice in the list, and mutating the found record is modelled as replacing the value at its position.
