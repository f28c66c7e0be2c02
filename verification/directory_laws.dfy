/**
 Properties that relate the directory operations to one another: what a
 lookup sees after a write, when ids stay unique, what repeating a state
 transition does, and the record invariant every write preserves.
 */
module DirectoryLaws {
  import opened Employees
  import opened Directory

  /** Adding a valid record makes it findable by its id, unless an earlier
      record already carries that id: then the earlier one keeps answering. */
  lemma AddThenFind(dir: Dir, cand: Employee, env: Env)
    requires Valid(cand, env)
    ensures !HasId(dir, cand.id) ==> FindEmployeeById(AddEmployee(dir, cand, env).dir, cand.id) == Some(cand)
    ensures HasId(dir, cand.id) ==>
      FindEmployeeById(AddEmployee(dir, cand, env).dir, cand.id) == FindEmployeeById(dir, cand.id)
  {
    var after := AddEmployee(dir, cand, env).dir;
    assert after == dir + [cand];
    if HasId(dir, cand.id) {
      var k := FirstIndex(dir, cand.id).value;
      assert IsFirstMatch(after, cand.id, k);
    } else {
      assert IsFirstMatch(after, cand.id, |dir|);
    }
  }

  /** Adding keeps ids unique exactly when it is rejected or the id is new:
      the add endpoint performs no duplicate check of its own. */
  lemma AddKeepsIdsUnique(dir: Dir, cand: Employee, env: Env)
    requires NoDupIds(dir)
    ensures NoDupIds(AddEmployee(dir, cand, env).dir) <==> !Valid(cand, env) || !HasId(dir, cand.id)
  {
    var after := AddEmployee(dir, cand, env).dir;
    if Valid(cand, env) {
      assert after == dir + [cand];
      if HasId(dir, cand.id) {
        var i :| 0 <= i < |dir| && dir[i].id == cand.id;
        assert after[i].id == after[|dir|].id;
      }
    }
  }

  /** Updating a record with a candidate that keeps its id makes the candidate
      what the id now finds. */
  lemma UpdateThenFind(dir: Dir, id: string, cand: Employee, env: Env)
    requires HasId(dir, id) && Valid(cand, env) && cand.id == id
    ensures FindEmployeeById(UpdateEmployee(dir, id, cand, env).dir, id) == Some(cand)
  {
    var k := FirstIndex(dir, id).value;
    var after := UpdateEmployee(dir, id, cand, env).dir;
    assert IsFirstMatch(after, id, k);
  }

  /** An update keeps ids unique unless it succeeds in renaming the record to
      an id that another record already holds. */
  lemma UpdateKeepsIdsUnique(dir: Dir, id: string, cand: Employee, env: Env)
    requires NoDupIds(dir)
    ensures NoDupIds(UpdateEmployee(dir, id, cand, env).dir)
        <==> UpdateEmployee(dir, id, cand, env).outcome != Updated || cand.id == id || !HasId(dir, cand.id)
  {
    var after := UpdateEmployee(dir, id, cand, env).dir;
    if HasId(dir, id) && Valid(cand, env) {
      var k := FirstIndex(dir, id).value;
      if cand.id != id && HasId(dir, cand.id) {
        var j :| 0 <= j < |dir| && dir[j].id == cand.id;
        assert j != k;
        assert after[j].id == after[k].id;
      } else {
        forall i, j | 0 <= i < j < |after|
          ensures after[i].id != after[j].id
        {
          if i != k && j != k {
            assert after[i] == dir[i] && after[j] == dir[j];
          } else if i == k {
            assert after[j] == dir[j];
          } else {
            assert after[i] == dir[i];
          }
        }
      }
    }
  }

  /** With unique ids, a deleted id is gone afterwards and the remaining ids
      are still unique. */
  lemma DeleteThenNotFound(dir: Dir, id: string)
    requires NoDupIds(dir)
    ensures FindEmployeeById(DeleteEmployee(dir, id).dir, id) == None
    ensures NoDupIds(DeleteEmployee(dir, id).dir)
  {
    var after := DeleteEmployee(dir, id).dir;
    if HasId(dir, id) {
      var k := FirstIndex(dir, id).value;
      assert after == dir[..k] + dir[k + 1..];
      forall i | 0 <= i < |after|
        ensures after[i].id != id && (i < k ==> after[i] == dir[i]) && (i >= k ==> after[i] == dir[i + 1])
      {
        if i < k {
          assert after[i] == dir[i];
        } else {
          assert after[i] == dir[i + 1];
        }
      }
    }
  }

  /** A second leave request for the same record is refused as already on
      leave and changes nothing. */
  lemma ApplyLeaveTwice(dir: Dir, id: string)
    requires ApplyAnnualLeave(dir, id).outcome == Applied
    ensures var after := ApplyAnnualLeave(dir, id).dir;
            ApplyAnnualLeave(after, id) == Reply(AlreadyOnLeave, after)
  {
    var k := FirstIndex(dir, id).value;
    var after := ApplyAnnualLeave(dir, id).dir;
    assert IsFirstMatch(after, id, k);
  }

  /** Promotion succeeds exactly when the requester is a supervisor and the
      target exists, is not yet a supervisor, is at least 30 and is not on leave. */
  lemma PromoteSucceedsIff(dir: Dir, supervisorId: string, id: string)
    ensures PromoteEmployee(dir, supervisorId, id).outcome == Promoted
        <==> && Authorized(dir, supervisorId)
             && exists k :: IsFirstMatch(dir, id, k) && dir[k].position != Supervisor
                            && dir[k].age >= 30 && !dir[k].onLeave
  {
    if HasId(dir, id) {
      var k := FirstIndex(dir, id).value;
      forall m | IsFirstMatch(dir, id, m) ensures m == k {
        FirstMatchUnique(dir, id, k, m);
      }
    }
  }

  /** The authorisation verdict depends on the requester alone: whatever the
      target, the request is refused as unauthorised in the same cases. */
  lemma PromoteAuthorizationIgnoresTarget(dir: Dir, supervisorId: string, id1: string, id2: string)
    ensures PromoteEmployee(dir, supervisorId, id1).outcome == Unauthorized
        <==> PromoteEmployee(dir, supervisorId, id2).outcome == Unauthorized
    ensures PromoteEmployee(dir, supervisorId, id1).outcome == Unauthorized
        <==> !Authorized(dir, supervisorId)
  {
    if HasId(dir, id1) {
      assert IsFirstMatch(dir, id1, FirstIndex(dir, id1).value);
    }
    if HasId(dir, id2) {
      assert IsFirstMatch(dir, id2, FirstIndex(dir, id2).value);
    }
  }

  /** Repeating a successful promotion is refused as already a supervisor:
      the requester keeps its authority, and the target now holds the position. */
  lemma PromoteTwice(dir: Dir, supervisorId: string, id: string)
    requires PromoteEmployee(dir, supervisorId, id).outcome == Promoted
    ensures var after := PromoteEmployee(dir, supervisorId, id).dir;
            PromoteEmployee(after, supervisorId, id) == Reply(AlreadySupervisor, after)
  {
    var s := FirstIndex(dir, supervisorId).value;
    var k := FirstIndex(dir, id).value;
    var after := PromoteEmployee(dir, supervisorId, id).dir;
    assert s != k;
    assert IsFirstMatch(after, supervisorId, s);
    assert IsFirstMatch(after, id, k);
  }

  /**
   What holds of every stored record: every annotation except the two that
   only constrain creation (not on leave, positive balance) is still met,
   and the leave balance has not gone negative.
   */
  predicate Stored(e: Employee, env: Env) {
    Violations(e, env) <= {OnLeaveFalse, AnnualLeavePositive} && e.annualLeave >= 0
  }

  predicate WellFormed(dir: Dir, env: Env) {
    forall i :: 0 <= i < |dir| ==> Stored(dir[i], env)
  }

  lemma ValidIsStored(e: Employee, env: Env)
    requires Valid(e, env)
    ensures Stored(e, env)
  {
    assert Satisfies(e, AnnualLeavePositive, env);
  }

  /** A granted leave request only touches the two fields the validator
      constrains at creation time, and only while the balance is positive. */
  lemma TakeLeaveStored(e: Employee, env: Env)
    requires Stored(e, env) && !e.onLeave && e.annualLeave > 0
    ensures Stored(TakeLeave(e), env)
  {
  }

  /** Promotion writes a position the validator accepts. */
  lemma PromoteStored(e: Employee, env: Env)
    requires Stored(e, env)
    ensures Stored(e.(position := Supervisor), env)
  {
    PositionPatternMatches(Supervisor);
  }

  lemma AddKeepsWellFormed(dir: Dir, cand: Employee, env: Env)
    requires WellFormed(dir, env)
    ensures WellFormed(AddEmployee(dir, cand, env).dir, env)
  {
    if Valid(cand, env) {
      ValidIsStored(cand, env);
    }
  }

  lemma UpdateKeepsWellFormed(dir: Dir, id: string, cand: Employee, env: Env)
    requires WellFormed(dir, env)
    ensures WellFormed(UpdateEmployee(dir, id, cand, env).dir, env)
  {
    if HasId(dir, id) && Valid(cand, env) {
      ValidIsStored(cand, env);
      assert IsFirstMatch(dir, id, FirstIndex(dir, id).value);
    }
  }

  lemma DeleteKeepsWellFormed(dir: Dir, id: string, env: Env)
    requires WellFormed(dir, env)
    ensures WellFormed(DeleteEmployee(dir, id).dir, env)
  {
    if HasId(dir, id) {
      var k := FirstIndex(dir, id).value;
      var after := DeleteEmployee(dir, id).dir;
      assert forall i :: 0 <= i < |after| ==> after[i] == dir[if i < k then i else i + 1];
    }
  }

  lemma ApplyLeaveKeepsWellFormed(dir: Dir, id: string, env: Env)
    requires WellFormed(dir, env)
    ensures WellFormed(ApplyAnnualLeave(dir, id).dir, env)
  {
    if HasId(dir, id) {
      var k := FirstIndex(dir, id).value;
      if !dir[k].onLeave && dir[k].annualLeave > 0 {
        TakeLeaveStored(dir[k], env);
      }
    }
  }

  lemma PromoteKeepsWellFormed(dir: Dir, supervisorId: string, id: string, env: Env)
    requires WellFormed(dir, env)
    ensures WellFormed(PromoteEmployee(dir, supervisorId, id).dir, env)
  {
    if Authorized(dir, supervisorId) && HasId(dir, id) {
      var k := FirstIndex(dir, id).value;
      PromoteStored(dir[k], env);
    }
  }
}
