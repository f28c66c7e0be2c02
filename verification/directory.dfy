/**
 The employee directory: the controller's in-memory list of records and the
 operations its endpoints perform on it. Every operation is a pure function
 from the current list to a `Reply`: the kind of outcome the endpoint reports
 and the list as it stands afterwards. Records are values here, so an
 in-place update of the record found by the scan becomes an update of the list
 at that record's position.
 */
module Directory {
  import opened Employees

  datatype Option<T> = None | Some(value: T)

  /** The list of records, in insertion order. */
  type Dir = seq<Employee>

  /** The outcome kinds the endpoints report; the status code and message each
      maps to are left to the web layer. */
  datatype Outcome =
    | Listed(items: seq<Employee>)
    | Created | Updated | Deleted | Applied | Promoted
    | InvalidInput | NotFound | EmptyResult
    | AlreadyOnLeave | InsufficientLeave
    | Unauthorized | AlreadySupervisor | CriteriaNotMet

  datatype Reply = Reply(outcome: Outcome, dir: Dir)

  predicate HasId(dir: Dir, id: string) {
    exists i :: 0 <= i < |dir| && dir[i].id == id
  }

  /** Position `k` is where a front-to-back scan for `id` stops. */
  predicate IsFirstMatch(dir: Dir, id: string, k: int) {
    0 <= k < |dir| && dir[k].id == id && forall j :: 0 <= j < k ==> dir[j].id != id
  }

  /** No two records share an id. Nothing in the controller enforces this. */
  predicate NoDupIds(dir: Dir) {
    forall i, j :: 0 <= i < j < |dir| ==> dir[i].id != dir[j].id
  }

  lemma FirstMatchUnique(dir: Dir, id: string, k: int, m: int)
    requires IsFirstMatch(dir, id, k) && IsFirstMatch(dir, id, m)
    ensures k == m
  {
  }

  /** The position the linear scan by id stops at, if any. */
  function FirstIndex(dir: Dir, id: string): (r: Option<nat>)
    ensures r.Some? ==> IsFirstMatch(dir, id, r.value)
    ensures r.None? <==> !HasId(dir, id)
  {
    if |dir| == 0 then None
    else if dir[0].id == id then Some(0)
    else
      match FirstIndex(dir[1..], id)
      case None =>
        assert forall i :: 1 <= i < |dir| ==> dir[i] == dir[1..][i - 1];
        None
      case Some(k) =>
        assert forall j :: 1 <= j <= k ==> dir[j] == dir[1..][j - 1];
        Some(k + 1)
  }

  /** The controller's lookup helper: the first record with the given id. */
  function FindEmployeeById(dir: Dir, id: string): (r: Option<Employee>)
    ensures r.None? <==> !HasId(dir, id)
    ensures forall k :: IsFirstMatch(dir, id, k) ==> r == Some(dir[k])
  {
    match FirstIndex(dir, id)
    case None => None
    case Some(k) => Some(dir[k])
  }

  /** `List.indexOf`: the first position holding a record equal to `x`. */
  function IndexOf(dir: Dir, x: Employee): (r: Option<nat>)
    ensures r.None? <==> x !in dir
    ensures r.Some? ==> r.value < |dir| && dir[r.value] == x
    ensures r.Some? ==> forall j :: 0 <= j < r.value ==> dir[j] != x
  {
    if |dir| == 0 then None
    else if dir[0] == x then Some(0)
    else
      match IndexOf(dir[1..], x)
      case None =>
        assert dir == [dir[0]] + dir[1..];
        None
      case Some(k) =>
        assert forall j :: 1 <= j <= k ==> dir[j] == dir[1..][j - 1];
        Some(k + 1)
  }

  /** Searching by equality for the record the id scan found lands on the
      same position: an equal record earlier in the list would carry the same
      id and would have stopped the scan first. */
  lemma IndexOfFirstMatch(dir: Dir, id: string, k: int)
    requires IsFirstMatch(dir, id, k)
    ensures IndexOf(dir, dir[k]) == Some(k)
  {
    var r := IndexOf(dir, dir[k]);
    assert dir[k] in dir;
    var m := r.value;
    assert dir[m].id == id;
  }

  /** `List.remove(Object)`: drop the first record equal to `x`, if any. */
  function RemoveFirst(dir: Dir, x: Employee): (r: Dir)
    ensures x !in dir ==> r == dir
    ensures forall k :: 0 <= k < |dir| && dir[k] == x && (forall j :: 0 <= j < k ==> dir[j] != x) ==>
      r == dir[..k] + dir[k + 1..]
  {
    match IndexOf(dir, x)
    case None => dir
    case Some(k) =>
      assert dir == dir[..k] + [x] + dir[k + 1..];
      dir[..k] + dir[k + 1..]
  }

  /** Removal takes away exactly one occurrence of `x`, when there is one, and
      keeps every other record as often as it was there. */
  lemma RemoveFirstCount(dir: Dir, x: Employee)
    ensures multiset(RemoveFirst(dir, x)) == multiset(dir) - multiset{x}
  {
    if x in dir {
      var k := IndexOf(dir, x).value;
      assert dir == dir[..k] + [x] + dir[k + 1..];
    }
  }

  /** Listing: every record, in insertion order; nothing changes. */
  function GetEmployees(dir: Dir): (r: Reply)
    ensures r.dir == dir
    ensures r.outcome.Listed? && r.outcome.items == dir
  {
    Reply(Listed(dir), dir)
  }

  /** Adding: a candidate that passes validation is appended; no check is made
      that its id is new. */
  function AddEmployee(dir: Dir, cand: Employee, env: Env): (r: Reply)
    ensures r.outcome == Created <==> Valid(cand, env)
    ensures r.outcome != Created ==> r == Reply(InvalidInput, dir)
    ensures r.outcome == Created ==>
      |r.dir| == |dir| + 1 && r.dir[..|dir|] == dir && r.dir[|dir|] == cand
  {
    if !Valid(cand, env) then Reply(InvalidInput, dir)
    else Reply(Created, dir + [cand])
  }

  /**
   Updating: the id is looked up BEFORE the validation result is consulted,
   so an unknown id is reported as NotFound even for an invalid candidate. On
   success the whole record is overwritten, including its id.
   */
  function UpdateEmployee(dir: Dir, id: string, cand: Employee, env: Env): (r: Reply)
    ensures !HasId(dir, id) ==> r == Reply(NotFound, dir)
    ensures HasId(dir, id) && !Valid(cand, env) ==> r == Reply(InvalidInput, dir)
    ensures HasId(dir, id) && Valid(cand, env) ==> r.outcome == Updated && |r.dir| == |dir|
    ensures forall k :: IsFirstMatch(dir, id, k) && Valid(cand, env) ==>
      r.dir[k] == cand && forall i :: 0 <= i < |dir| && i != k ==> r.dir[i] == dir[i]
  {
    match FirstIndex(dir, id)
    case None => Reply(NotFound, dir)
    case Some(f) =>
      if !Valid(cand, env) then Reply(InvalidInput, dir)
      else
        var existing := dir[f];
        IndexOfFirstMatch(dir, id, f);
        var k := IndexOf(dir, existing).value;
        Reply(Updated, dir[k := cand])
  }

  /** Deleting: the first record with the id is removed; the rest keep their order. */
  function DeleteEmployee(dir: Dir, id: string): (r: Reply)
    ensures !HasId(dir, id) ==> r == Reply(NotFound, dir)
    ensures HasId(dir, id) ==> r.outcome == Deleted && |r.dir| == |dir| - 1
    ensures forall k :: IsFirstMatch(dir, id, k) ==> r.dir == dir[..k] + dir[k + 1..]
  {
    match FirstIndex(dir, id)
    case None => Reply(NotFound, dir)
    case Some(f) =>
      IndexOfFirstMatch(dir, id, f);
      Reply(Deleted, RemoveFirst(dir, dir[f]))
  }

  /** The three filters the query endpoints apply. */
  datatype Criterion =
    | ByPosition(position: string)
    | ByAge(minAge: int, maxAge: int)
    | NoLeaveLeft

  predicate Selects(c: Criterion, e: Employee) {
    match c
    case ByPosition(p) => e.position == p
    case ByAge(lo, hi) => e.age >= lo && e.age <= hi
    case NoLeaveLeft => e.annualLeave == 0
  }

  /** The records `c` selects, in list order, each as often as it occurs. */
  function Filter(dir: Dir, c: Criterion): (r: Dir)
    ensures |r| <= |dir|
    ensures forall e :: multiset(r)[e] == if Selects(c, e) then multiset(dir)[e] else 0
    ensures forall e :: e in r <==> e in dir && Selects(c, e)
  {
    if |dir| == 0 then []
    else
      assert dir == [dir[0]] + dir[1..];
      (if Selects(c, dir[0]) then [dir[0]] else []) + Filter(dir[1..], c)
  }

  /** Filtering a concatenation filters each part: the selected records keep
      their relative order. */
  lemma {:induction false} FilterAppend(a: Dir, b: Dir, c: Criterion)
    ensures Filter(a + b, c) == Filter(a, c) + Filter(b, c)
  {
    if |a| == 0 {
      assert a + b == b;
    } else {
      assert (a + b)[0] == a[0];
      assert (a + b)[1..] == a[1..] + b;
      FilterAppend(a[1..], b, c);
    }
  }

  /** A query reports the selected records, or EmptyResult when there are none. */
  function Query(dir: Dir, c: Criterion): (r: Reply)
    ensures r.dir == dir
    ensures r.outcome == EmptyResult <==> forall e :: e in dir ==> !Selects(c, e)
    ensures r.outcome != EmptyResult ==> r.outcome == Listed(Filter(dir, c))
  {
    var hits := Filter(dir, c);
    if |hits| == 0 then Reply(EmptyResult, dir)
    else
      assert hits[0] in hits;
      Reply(Listed(hits), dir)
  }

  function SearchByPosition(dir: Dir, position: string): (r: Reply)
    ensures r.dir == dir
    ensures r.outcome == EmptyResult <==> forall e :: e in dir ==> e.position != position
    ensures r.outcome != EmptyResult ==>
      && r.outcome == Listed(Filter(dir, ByPosition(position)))
      && forall e :: e in r.outcome.items <==> e in dir && e.position == position
  {
    Query(dir, ByPosition(position))
  }

  /** No order between the bounds is required: inverted bounds select nobody. */
  function EmployeesByAge(dir: Dir, minAge: int, maxAge: int): (r: Reply)
    ensures r.dir == dir
    ensures r.outcome == EmptyResult <==> forall e :: e in dir ==> !(minAge <= e.age <= maxAge)
    ensures r.outcome != EmptyResult ==>
      && r.outcome == Listed(Filter(dir, ByAge(minAge, maxAge)))
      && forall e :: e in r.outcome.items <==> e in dir && minAge <= e.age <= maxAge
    ensures minAge > maxAge ==> r.outcome == EmptyResult
  {
    Query(dir, ByAge(minAge, maxAge))
  }

  function EmployeesWithNoLeave(dir: Dir): (r: Reply)
    ensures r.dir == dir
    ensures r.outcome == EmptyResult <==> forall e :: e in dir ==> e.annualLeave != 0
    ensures r.outcome != EmptyResult ==>
      && r.outcome == Listed(Filter(dir, NoLeaveLeft))
      && forall e :: e in r.outcome.items <==> e in dir && e.annualLeave == 0
  {
    Query(dir, NoLeaveLeft)
  }

  /** The record after a granted leave request. */
  function TakeLeave(e: Employee): Employee {
    e.(onLeave := true, annualLeave := e.annualLeave - 1)
  }

  /**
   Applying for leave: checked in the order existence, already on leave,
   remaining balance. Only a granted request changes the list, and then only
   the record found, whose flag is set and whose balance drops by one.
   */
  function ApplyAnnualLeave(dir: Dir, id: string): (r: Reply)
    ensures !HasId(dir, id) ==> r == Reply(NotFound, dir)
    ensures forall k :: IsFirstMatch(dir, id, k) ==>
      && (dir[k].onLeave ==> r == Reply(AlreadyOnLeave, dir))
      && (!dir[k].onLeave && dir[k].annualLeave <= 0 ==> r == Reply(InsufficientLeave, dir))
      && (!dir[k].onLeave && dir[k].annualLeave > 0 ==> r == Reply(Applied, dir[k := TakeLeave(dir[k])]))
    ensures r.outcome != Applied ==> r.dir == dir
    ensures |r.dir| == |dir| && forall i :: 0 <= i < |dir| ==> r.dir[i].id == dir[i].id
  {
    match FirstIndex(dir, id)
    case None => Reply(NotFound, dir)
    case Some(k) =>
      var e := dir[k];
      if e.onLeave then Reply(AlreadyOnLeave, dir)
      else if e.annualLeave > 0 then Reply(Applied, dir[k := TakeLeave(e)])
      else Reply(InsufficientLeave, dir)
  }

  /** The requester's id resolves to a record whose position is supervisor. */
  predicate Authorized(dir: Dir, supervisorId: string) {
    exists k :: 0 <= k < |dir| && IsFirstMatch(dir, supervisorId, k) && dir[k].position == Supervisor
  }

  /** The promotion criteria on the target: at least 30 years old and not on leave. */
  predicate Eligible(e: Employee) {
    e.age >= 30 && !e.onLeave
  }

  /**
   Promoting: the requester is checked first, and on its own; then the
   target's existence, its current position, and the criteria. Success changes
   only the target's position.
   */
  function PromoteEmployee(dir: Dir, supervisorId: string, id: string): (r: Reply)
    ensures !Authorized(dir, supervisorId) ==> r == Reply(Unauthorized, dir)
    ensures Authorized(dir, supervisorId) && !HasId(dir, id) ==> r == Reply(NotFound, dir)
    ensures Authorized(dir, supervisorId) ==> forall k :: IsFirstMatch(dir, id, k) ==>
      && (dir[k].position == Supervisor ==> r == Reply(AlreadySupervisor, dir))
      && (dir[k].position != Supervisor && !Eligible(dir[k]) ==> r == Reply(CriteriaNotMet, dir))
      && (dir[k].position != Supervisor && Eligible(dir[k]) ==>
            r == Reply(Promoted, dir[k := dir[k].(position := Supervisor)]))
    ensures r.outcome != Promoted ==> r.dir == dir
    ensures |r.dir| == |dir| && forall i :: 0 <= i < |dir| ==> r.dir[i].id == dir[i].id
  {
    match FirstIndex(dir, supervisorId)
    case None => Reply(Unauthorized, dir)
    case Some(s) =>
      if dir[s].position != Supervisor then Reply(Unauthorized, dir)
      else
        match FirstIndex(dir, id)
        case None => Reply(NotFound, dir)
        case Some(k) =>
          var e := dir[k];
          if e.position == Supervisor then Reply(AlreadySupervisor, dir)
          else if e.age >= 30 && !e.onLeave then Reply(Promoted, dir[k := e.(position := Supervisor)])
          else Reply(CriteriaNotMet, dir)
  }
}
