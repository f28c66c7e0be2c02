/**
 Concrete runs of the directory on small lists: the leave workflow on a fresh
 record, a promotion by an unknown requester, and two runs that show what the
 missing uniqueness check on ids allows.
 */
module Scenarios {
  import opened Employees
  import opened Directory

  /** 2020-01-01, counted in days from 1970-01-01. */
  const Jan2020: Day := 18262

  const Fatima: Employee := Employee(
    "E001", "Fatima", "f@x.com", "0512345678", 28, Coordinator, false, Jan2020, 5)

  lemma FatimaIsValid(env: Env)
    requires env.isEmail(Fatima.email) && env.today >= Jan2020
    ensures Valid(Fatima, env)
  {
    ValidIff(Fatima, env);
    assert Fatima.email[0] > ' ';
  }

  /** Adding a fresh record, granting it leave, then asking again. */
  lemma LeaveWorkflow(env: Env)
    requires env.isEmail(Fatima.email) && env.today >= Jan2020
    ensures AddEmployee([], Fatima, env) == Reply(Created, [Fatima])
    ensures var granted := Fatima.(onLeave := true, annualLeave := 4);
            && ApplyAnnualLeave([Fatima], "E001") == Reply(Applied, [granted])
            && ApplyAnnualLeave([granted], "E001") == Reply(AlreadyOnLeave, [granted])
  {
    FatimaIsValid(env);
    assert IsFirstMatch([Fatima], "E001", 0);
    var granted := Fatima.(onLeave := true, annualLeave := 4);
    assert IsFirstMatch([granted], "E001", 0);
  }

  /** A requester id that resolves to nothing is refused, whatever the target. */
  lemma PromoteByUnknownRequester(target: string)
    ensures PromoteEmployee([Fatima], "S1", target) == Reply(Unauthorized, [Fatima])
  {
    assert !Authorized([Fatima], "S1");
  }

  /** With two records sharing an id, deleting that id removes only the first
      and the id is still found afterwards. */
  lemma DeleteLeavesDuplicate()
    ensures var twin := Fatima.(name := "Fatimah");
            var after := DeleteEmployee([Fatima, twin], "E001");
            && after == Reply(Deleted, [twin])
            && FindEmployeeById(after.dir, "E001") == Some(twin)
  {
    var twin := Fatima.(name := "Fatimah");
    assert IsFirstMatch([Fatima, twin], "E001", 0);
    assert IsFirstMatch([twin], "E001", 0);
  }

  /** An update may store a different id than the one it was addressed by;
      the old id then finds nothing. */
  lemma UpdateRenames(env: Env)
    requires env.isEmail(Fatima.email) && env.today >= Jan2020
    ensures var renamed := Fatima.(id := "E002");
            var after := UpdateEmployee([Fatima], "E001", renamed, env);
            && after == Reply(Updated, [renamed])
            && FindEmployeeById(after.dir, "E001") == None
  {
    var renamed := Fatima.(id := "E002");
    FatimaIsValid(env);
    ValidIff(Fatima, env);
    ValidIff(renamed, env);
    assert IsFirstMatch([Fatima], "E001", 0);
    assert [Fatima][0 := renamed] == [renamed];
  }
}
