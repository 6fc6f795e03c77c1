/** The employee routes of back/routes/employees.py, above all the deletion
    cascade that hands a deleted employee's open incidents to other employees. */
module Employees {
  import opened Base
  import opened Models
  import opened Queries
  import opened Schemas
  import opened Access

  // ----------------------------------------------------------------- listing

  datatype AssignedSummary = AssignedSummary(id: int, title: string, status: string)

  /** One entry of GET /. */
  datatype EmployeeRow = EmployeeRow(
    id: int,
    name: string,
    email: Option<string>,
    role: Option<string>,
    isBusy: bool,
    assignedIncident: Option<AssignedSummary>)

  /** A listing entry tells the truth about its employee: its name, email and
      role are the row's, it is busy exactly when the employee holds an open
      incident, and the summary, present exactly when busy, describes one of
      those incidents. */
  predicate RowFaithful(st: Store, row: EmployeeRow)
    requires row.id in st.employees
  {
    && row.name == st.employees[row.id].firstName + " " + st.employees[row.id].lastName
    && row.email == st.employees[row.id].email && row.role == st.employees[row.id].role
    && (row.isBusy <==> OpenIncidentIds(st, row.id) != {})
    && (row.assignedIncident.Some? <==> row.isBusy)
    && (row.assignedIncident.Some? ==>
          var k := row.assignedIncident.value.id;
          && k in OpenIncidentIds(st, row.id)
          && row.assignedIncident.value.title == st.incidents[k].title
          && row.assignedIncident.value.status == st.statuses[st.incidents[k].statusId].name)
  }

  function ListingRow(st: Store, id: int): (row: EmployeeRow)
    requires id in st.employees
    ensures row.id == id && RowFaithful(st, row)
  {
    var e := st.employees[id];
    var first := FirstOpenIncident(st, id);
    EmployeeRow(
      id, e.firstName + " " + e.lastName, e.email, e.role, first.Some?,
      if first.Some?
      then
        var inc := st.incidents[first.value];
        Some(AssignedSummary(first.value, inc.title, st.statuses[inc.statusId].name))
      else None)
  }

  /** Every entry of a listing is about an existing employee and faithful. */
  predicate AllFaithful(st: Store, rows: seq<EmployeeRow>)
  {
    forall i :: 0 <= i < |rows| ==> rows[i].id in st.employees && RowFaithful(st, rows[i])
  }

  /** The listing body of GET /: every employee once, in id order, each with
      its busy state. */
  function EmployeeListing(st: Store): (rows: seq<EmployeeRow>)
    ensures AllFaithful(st, rows)
    ensures forall i, j :: 0 <= i < j < |rows| ==> rows[i].id < rows[j].id
    ensures forall e :: e in st.employees ==> exists i :: 0 <= i < |rows| && rows[i].id == e
  {
    var ids := SortedKeys(st.employees.Keys);
    var rows := ListingRows(st, ids);
    RowIdsFollow(ids, rows);
    rows
  }

  /** GET /: admins only. */
  function GetAllEmployees(st: Store, caller: int): (r: Result<seq<EmployeeRow>>)
    ensures !AdminRequired(st, caller) <==> r == Fail(Forbidden)
    ensures r.Ok? ==> AllFaithful(st, r.value)
    ensures r.Ok? ==> forall i, j :: 0 <= i < j < |r.value| ==> r.value[i].id < r.value[j].id
    ensures r.Ok? ==> forall e :: e in st.employees ==> exists i :: 0 <= i < |r.value| && r.value[i].id == e
  {
    if !AdminRequired(st, caller) then Fail(Forbidden) else Ok(EmployeeListing(st))
  }

  /** Rows that carry the ids of `ids` position by position inherit its order
      and cover each of its ids. */
  lemma RowIdsFollow(ids: seq<int>, rows: seq<EmployeeRow>)
    requires |rows| == |ids| && Ascending(ids)
    requires forall i :: 0 <= i < |rows| ==> rows[i].id == ids[i]
    ensures forall i, j :: 0 <= i < j < |rows| ==> rows[i].id < rows[j].id
    ensures forall x :: x in ids ==> exists i :: 0 <= i < |rows| && rows[i].id == x
  {
    forall x | x in ids
      ensures exists i :: 0 <= i < |rows| && rows[i].id == x
    {
      var i :| 0 <= i < |ids| && ids[i] == x;
      assert rows[i].id == x;
    }
  }

  /** One listing entry per id, in the order given. */
  function ListingRows(st: Store, ids: seq<int>): (rows: seq<EmployeeRow>)
    requires forall i :: 0 <= i < |ids| ==> ids[i] in st.employees
    ensures |rows| == |ids|
    ensures forall i :: 0 <= i < |rows| ==> rows[i].id == ids[i]
    ensures AllFaithful(st, rows)
  {
    if ids == [] then []
    else
      var rest := ListingRows(st, ids[1..]);
      var row := ListingRow(st, ids[0]);
      assert forall i :: 0 < i <= |rest| ==> ([row] + rest)[i] == rest[i - 1];
      [row] + rest
  }

  /** GET /<id>: admins may read any employee, others only themselves. A caller
      whose row is gone makes the handler fail on `user.role`. */
  function GetEmployee(st: Store, caller: int, id: int): (r: Result<EmployeeDump>)
    ensures caller !in st.employees ==> r == Fail(ServerError)
    ensures caller in st.employees && st.employees[caller].role != Some(AdminRole) && caller != id ==>
      r == Fail(Forbidden)
    ensures caller in st.employees && (st.employees[caller].role == Some(AdminRole) || caller == id) ==>
      if id in st.employees then r == Ok(DumpEmployee(st, id)) else r == Fail(NotFound)
  {
    if caller !in st.employees then Fail(ServerError)
    else if st.employees[caller].role != Some(AdminRole) && caller != id then Fail(Forbidden)
    else if id !in st.employees then Fail(NotFound)
    else Ok(DumpEmployee(st, id))
  }

  // ------------------------------------------------------- create and update

  /** The duplicate-email query `filter_by(email=...)`: a JSON null matches a
      NULL email. */
  predicate EmailTaken(st: Store, j: Json)
  {
    exists k :: k in st.employees && TextJson(st.employees[k].email) == j
  }

  /** An email the duplicate query does not find is used by no other row. */
  lemma NotTakenNotUsed(st: Store, id: int, email: Option<string>)
    requires !EmailTaken(st, TextJson(email))
    ensures !EmailUsedByOther(st.employees, Some(id), email)
  {
  }

  /** The row a create starts from; the required columns are always loaded. */
  const FreshEmployee: Employee := Employee("", "", None, None, None, None, "")

  /** The body `create_employee` loads: the role defaulted to "user" when the
      key is absent, and the password replaced by its hash. */
  function CreatePayload(p: Payload, hash: string -> string): Payload
    requires "password" in p && p["password"].JStr?
  {
    var p1 := if "role" in p then p else p["role" := JStr(UserRole)];
    p1["password" := JStr(hash(p["password"].s))]
  }

  /** The row a successful create load yields, column by column: every
      column from the payload, the role defaulted, the password hashed. */
  lemma CreatedRow(p: Payload, hash: string -> string)
    requires "id" !in p && "password" in p && p["password"].JStr?
    requires LoadEmployee(CreatePayload(p, hash), FreshEmployee, false).Valid?
    ensures var row := LoadEmployee(CreatePayload(p, hash), FreshEmployee, false).value;
      && JStr(row.firstName) == Get(p, "first_name") && JStr(row.lastName) == Get(p, "last_name")
      && TextJson(row.position) == Get(p, "position") && TextJson(row.phone) == Get(p, "phone")
      && TextJson(row.email) == Get(p, "email")
      && TextJson(row.role) == (if "role" in p then p["role"] else JStr(UserRole))
      && row.password == hash(p["password"].s)
  {
    var q := CreatePayload(p, hash);
    assert forall k :: k != "role" && k != "password" ==> (k in q <==> k in p) && (k in p ==> q[k] == p[k]);
  }

  /** The body `update_employee` loads: the password, when present, replaced
      by its hash. */
  function UpdatePayload(p: Payload, hash: string -> string): Payload
    requires "password" in p ==> p["password"].JStr?
  {
    if "password" in p then p["password" := JStr(hash(p["password"].s))] else p
  }

  /** POST /: duplicate email first, then the missing password; the role
      defaults to "user" when the key is absent; the password is hashed
      before loading, and hashing a non-string fails outside the `try`. */
  function CreateEmployee(st: Store, caller: int, p: Payload, hash: string -> string): (r: Handled<EmployeeDump>)
    requires "id" !in p
    ensures !AdminRequired(st, caller) ==> r == Handled(Fail(Forbidden), st)
    ensures r.result == Fail(Forbidden) ==> !AdminRequired(st, caller)
    ensures r.result.Fail? ==> r.store == st
    ensures AdminRequired(st, caller) && EmailTaken(st, Get(p, "email")) ==> r.result == Fail(BadRequest)
    ensures AdminRequired(st, caller) && !EmailTaken(st, Get(p, "email")) && "password" !in p ==>
      r.result == Fail(BadRequest)
    ensures AdminRequired(st, caller) && !EmailTaken(st, Get(p, "email")) && "password" in p && !p["password"].JStr? ==>
      r.result == Fail(ServerError)
    ensures AdminRequired(st, caller) && !EmailTaken(st, Get(p, "email")) && "password" in p && p["password"].JStr? ==>
      (r.result.Ok? <==> LoadEmployee(CreatePayload(p, hash), FreshEmployee, false).Valid?)
    ensures r.result.Ok? ==>
      var id := r.result.value.id;
      && id !in st.employees && id in r.store.employees
      && r.store == st.(employees := st.employees[id := r.store.employees[id]])
      && "password" in p && p["password"].JStr?
      && r.store.employees[id] == LoadEmployee(CreatePayload(p, hash), FreshEmployee, false).value
      && r.result.value == DumpEmployee(r.store, id)
    ensures r.result.Ok? ==>
      var row := r.store.employees[r.result.value.id];
      && JStr(row.firstName) == Get(p, "first_name") && JStr(row.lastName) == Get(p, "last_name")
      && TextJson(row.position) == Get(p, "position") && TextJson(row.phone) == Get(p, "phone")
      && TextJson(row.email) == Get(p, "email")
      && TextJson(row.role) == (if "role" in p then p["role"] else JStr(UserRole))
      && row.password == hash(p["password"].s)
    ensures EmailsUnique(st.employees) ==> EmailsUnique(r.store.employees)
  {
    if !AdminRequired(st, caller) then Handled(Fail(Forbidden), st)
    else if EmailTaken(st, Get(p, "email")) then Handled(Fail(BadRequest), st)
    else
      if "password" !in p then Handled(Fail(BadRequest), st)
      else if !p["password"].JStr? then Handled(Fail(ServerError), st)
      else
        var p2 := CreatePayload(p, hash);
        match LoadEmployee(p2, FreshEmployee, false)
        case Invalid => Handled(Fail(BadRequest), st)
        case Valid(e) =>
          var id := NextId(st.employees);
          CreatedRow(p, hash);
          NotTakenNotUsed(st, id, e.email);
          PutKeepsEmailsUnique(st.employees, id, e);
          var st' := st.(employees := st.employees[id := e]);
          Handled(Ok(DumpEmployee(st', id)), st')
  }

  /** PUT /<id>: a partial load onto the stored row, the password hashed when
      present. A second employee with the same email makes the commit fail. */
  function UpdateEmployee(st: Store, caller: int, id: int, p: Payload, hash: string -> string): (r: Handled<EmployeeDump>)
    requires "id" !in p
    ensures !AdminRequired(st, caller) ==> r == Handled(Fail(Forbidden), st)
    ensures r.result == Fail(Forbidden) ==> !AdminRequired(st, caller)
    ensures AdminRequired(st, caller) && id !in st.employees ==> r == Handled(Fail(NotFound), st)
    ensures r.result.Fail? ==> r.store == st
    ensures AdminRequired(st, caller) && id in st.employees && "password" in p && !p["password"].JStr? ==>
      r == Handled(Fail(ServerError), st)
    ensures AdminRequired(st, caller) && id in st.employees && ("password" in p ==> p["password"].JStr?) ==>
      var l := LoadEmployee(UpdatePayload(p, hash), st.employees[id], true);
      (r.result.Ok? <==> l.Valid? && !EmailUsedByOther(st.employees, Some(id), l.value.email))
    ensures r.result.Ok? ==>
      && id in st.employees && r.result.value.id == id && id in r.store.employees
      && r.store == st.(employees := st.employees[id := r.store.employees[id]])
      && ("password" in p ==> p["password"].JStr?)
      && r.store.employees[id] == LoadEmployee(UpdatePayload(p, hash), st.employees[id], true).value
      && r.result.value == DumpEmployee(r.store, id)
    ensures r.result.Ok? ==>
      var row := r.store.employees[id];
      && ("password" in p ==> row.password == hash(p["password"].s))
      && ("password" !in p ==> row.password == st.employees[id].password)
      && (if "first_name" in p then JStr(row.firstName) == p["first_name"] else row.firstName == st.employees[id].firstName)
      && (if "last_name" in p then JStr(row.lastName) == p["last_name"] else row.lastName == st.employees[id].lastName)
      && (if "position" in p then TextJson(row.position) == p["position"] else row.position == st.employees[id].position)
      && (if "phone" in p then TextJson(row.phone) == p["phone"] else row.phone == st.employees[id].phone)
    ensures EmailsUnique(st.employees) ==> EmailsUnique(r.store.employees)
  {
    if !AdminRequired(st, caller) then Handled(Fail(Forbidden), st)
    else if id !in st.employees then Handled(Fail(NotFound), st)
    else if "password" in p && !p["password"].JStr? then Handled(Fail(ServerError), st)
    else
      var p1 := UpdatePayload(p, hash);
      match LoadEmployee(p1, st.employees[id], true)
      case Invalid => Handled(Fail(BadRequest), st)
      case Valid(e) =>
        if EmailUsedByOther(st.employees, Some(id), e.email) then Handled(Fail(BadRequest), st)
        else
          PutKeepsEmailsUnique(st.employees, id, e);
          var st' := st.(employees := st.employees[id := e]);
          Handled(Ok(DumpEmployee(st', id)), st')
  }

  // ------------------------------------------------------- deletion cascade

  /** The two success messages of DELETE: "Сотрудник удалён" when nothing was
      handed over, and the variant that reports the reassignment otherwise. */
  datatype DeleteReply = Deleted | DeletedReassigned

  /** The open incidents of `e`, in the order the cascade visits them. */
  function OpenIncidents(st: Store, e: int): (open: seq<int>)
    ensures Ascending(open)
    ensures forall k :: k in open <==> k in OpenIncidentIds(st, e)
    ensures forall i :: 0 <= i < |open| ==> open[i] in st.incidents
  {
    var open := SortedKeys(OpenIncidentIds(st, e));
    assert forall i :: 0 <= i < |open| ==> open[i] in OpenIncidentIds(st, e);
    open
  }

  /** `free_employees`: every other employee whose role is "user", in id order.
      Whether they are busy is not consulted. */
  function ReassignmentPool(st: Store, e: int): (pool: seq<int>)
    ensures Ascending(pool)
    ensures forall x :: x in pool <==> x in st.employees && x != e && st.employees[x].role == Some(UserRole)
  {
    SortedKeys(set x | x in st.employees && x != e && st.employees[x].role == Some(UserRole))
  }

  /** Reference definition of the hand-out: the k-th open incident goes to the
      k-th pool member while the pool lasts, and to the requester after. */
  function TargetFor(k: nat, pool: seq<int>, requester: int): int
  {
    if k < |pool| then pool[k] else requester
  }

  function Reassigned(inc: Incident, target: int, now: int): Incident
  {
    Stamp(inc, inc.(assignedId := Some(target)), now)
  }

  /** The loop over `open_incidents`: pop the front of the pool when it is not
      empty, fall back to the requester otherwise. */
  function Reassign(incs: map<int, Incident>, open: seq<int>, pool: seq<int>, requester: int, now: int): (r: map<int, Incident>)
    requires forall i :: 0 <= i < |open| ==> open[i] in incs
    ensures r.Keys == incs.Keys
    decreases |open|
  {
    if open == [] then incs
    else
      var id := open[0];
      var target := if pool != [] then pool[0] else requester;
      var rest := if pool != [] then pool[1..] else [];
      Reassign(incs[id := Reassigned(incs[id], target, now)], open[1..], rest, requester, now)
  }

  /** DELETE /<id>. */
  function DeleteEmployee(st: Store, caller: int, e: int, now: int): (r: Handled<DeleteReply>)
    ensures !AdminRequired(st, caller) ==> r == Handled(Fail(Forbidden), st)
    ensures r.result == Fail(Forbidden) ==> !AdminRequired(st, caller)
    ensures AdminRequired(st, caller) && e !in st.employees ==> r == Handled(Fail(NotFound), st)
    ensures AdminRequired(st, caller) && e in st.employees ==>
      && r.result.Ok?
      && r.store.employees == st.employees - {e}
      && r.store == st.(employees := r.store.employees, incidents := r.store.incidents)
      && r.store.incidents.Keys == st.incidents.Keys
    ensures AdminRequired(st, caller) && e in st.employees && OpenIncidentIds(st, e) == {} ==>
      r == Handled(Ok(Deleted), st.(employees := st.employees - {e}))
    ensures AdminRequired(st, caller) && e in st.employees && OpenIncidentIds(st, e) != {} ==>
      r.result == Ok(DeletedReassigned)
  {
    if !AdminRequired(st, caller) then Handled(Fail(Forbidden), st)
    else if e !in st.employees then Handled(Fail(NotFound), st)
    else
      var open := OpenIncidents(st, e);
      if open == [] then Handled(Ok(Deleted), st.(employees := st.employees - {e}))
      else
        var pool := ReassignmentPool(st, e);
        Handled(Ok(DeletedReassigned),
                st.(employees := st.employees - {e}, incidents := Reassign(st.incidents, open, pool, caller, now)))
  }

  // ------------------------------------------------------------------ lemmas

  /** The loop agrees with the reference definition: the k-th visited incident
      gets `TargetFor(k, ...)`, and every other incident is left alone. */
  lemma {:induction false} ReassignMatchesTargetFor(
    incs: map<int, Incident>, open: seq<int>, pool: seq<int>, requester: int, now: int)
    requires NoDup(open)
    requires forall i :: 0 <= i < |open| ==> open[i] in incs
    ensures var r := Reassign(incs, open, pool, requester, now);
      && (forall k :: 0 <= k < |open| ==> r[open[k]] == Reassigned(incs[open[k]], TargetFor(k, pool, requester), now))
      && (forall id :: id in incs && id !in open ==> r[id] == incs[id])
    decreases |open|
  {
    if open != [] {
      var id := open[0];
      var target := if pool != [] then pool[0] else requester;
      var rest := if pool != [] then pool[1..] else [];
      var incs1 := incs[id := Reassigned(incs[id], target, now)];
      assert NoDup(open[1..]);
      ReassignMatchesTargetFor(incs1, open[1..], rest, requester, now);
      var r := Reassign(incs, open, pool, requester, now);
      assert r == Reassign(incs1, open[1..], rest, requester, now);
      forall k | 0 <= k < |open|
        ensures r[open[k]] == Reassigned(incs[open[k]], TargetFor(k, pool, requester), now)
      {
        if k == 0 {
          assert id !in open[1..];
        } else {
          assert open[k] == open[1..][k - 1];
          assert TargetFor(k - 1, rest, requester) == TargetFor(k, pool, requester);
          assert open[k] != id;
        }
      }
      forall x | x in incs && x !in open
        ensures r[x] == incs[x]
      {
        assert x !in open[1..];
      }
    }
  }

  /** How many of the first `n` visited incidents go to `who`. */
  function CountTargeted(n: nat, pool: seq<int>, requester: int, who: int): nat
  {
    if n == 0 then 0
    else CountTargeted(n - 1, pool, requester, who) + (if TargetFor(n - 1, pool, requester) == who then 1 else 0)
  }

  /** The requester, who is never in the pool, receives every incident past
      the end of the pool: max(0, n - |pool|) of them. */
  lemma {:induction false} RequesterShare(n: nat, pool: seq<int>, requester: int)
    requires requester !in pool
    ensures CountTargeted(n, pool, requester, requester) == if n > |pool| then n - |pool| else 0
  {
    if n > 0 {
      RequesterShare(n - 1, pool, requester);
      if n - 1 < |pool| {
        assert pool[n - 1] in pool;
      }
    }
  }

  /** Each pool member receives exactly one incident when the cascade reaches
      its position, and none otherwise. */
  lemma {:induction false} PoolMemberShare(n: nat, pool: seq<int>, requester: int, i: nat)
    requires NoDup(pool) && i < |pool| && requester != pool[i]
    ensures CountTargeted(n, pool, requester, pool[i]) == if i < n then 1 else 0
  {
    if n > 0 {
      PoolMemberShare(n - 1, pool, requester, i);
    }
  }

  /** The cascade as a whole: the k-th open incident (in id order) goes to the
      k-th "user" employee other than the deleted one, then to the requester;
      no other incident changes; and unless the requester deleted themself, no
      open incident is left pointing at the deleted employee. */
  lemma DeleteCascade(st: Store, caller: int, e: int, now: int)
    requires AdminRequired(st, caller) && e in st.employees
    ensures var st' := DeleteEmployee(st, caller, e, now).store;
      var open := OpenIncidents(st, e);
      var pool := ReassignmentPool(st, e);
      && e !in st'.employees
      && caller !in pool
      && (forall k :: 0 <= k < |open| ==>
            st'.incidents[open[k]] == Reassigned(st.incidents[open[k]], TargetFor(k, pool, caller), now))
      && (forall id :: id in st.incidents && id !in OpenIncidentIds(st, e) ==> st'.incidents[id] == st.incidents[id])
      && (caller != e ==> OpenIncidentIds(st', e) == {})
  {
    var st' := DeleteEmployee(st, caller, e, now).store;
    var open := OpenIncidents(st, e);
    var pool := ReassignmentPool(st, e);
    assert NoDup(open);
    if open != [] {
      ReassignMatchesTargetFor(st.incidents, open, pool, caller, now);
    } else {
      assert OpenIncidentIds(st, e) == {};
    }
    if caller != e {
      forall id | id in st'.incidents
        ensures id !in OpenIncidentIds(st', e)
      {
        if id in open {
          var k :| 0 <= k < |open| && open[k] == id;
          var t := TargetFor(k, pool, caller);
          assert t == caller || t in pool;
          assert st'.incidents[id].assignedId == Some(t);
        }
      }
    }
  }

  /** The assignee column after the ORM's flush: every incident that was in
      `e`'s `assigned_incidents` collection when the employee was loaded is
      blanked, whatever the loop wrote into it since. */
  function BlankAssignees(incs: map<int, Incident>, before: map<int, Incident>, e: int, now: int): (r: map<int, Incident>)
    requires incs.Keys == before.Keys
    ensures r.Keys == incs.Keys
    ensures forall id :: id in before && before[id].assignedId == Some(e) ==>
      r[id] == Stamp(incs[id], incs[id].(assignedId := None), now)
    ensures forall id :: id in before && before[id].assignedId != Some(e) ==> r[id] == incs[id]
  {
    map id | id in incs :: if before[id].assignedId == Some(e) then Stamp(incs[id], incs[id].(assignedId := None), now) else incs[id]
  }

  /** The incidents with the reassignment loop taken out: every incident `e`
      held loses its assignee and is stamped with `now`; the rest are kept. */
  function Unassigned(incs: map<int, Incident>, e: int, now: int): map<int, Incident>
  {
    map id | id in incs ::
      if incs[id].assignedId == Some(e) then incs[id].(assignedId := None, updatedAt := now) else incs[id]
  }

  /** Blanking a row the loop reassigned gives the row blanked before the loop. */
  lemma BlankReassigned(orig: Incident, e: int, t: int, now: int)
    requires orig.assignedId == Some(e)
    ensures var row := Reassigned(orig, t, now);
      Stamp(row, row.(assignedId := None), now) == orig.(assignedId := None, updatedAt := now)
  {
  }

  /** The flush undoes the loop: blanking the loop's rows gives `Unassigned`. */
  lemma CommittedIncidents(st: Store, caller: int, e: int, now: int)
    requires AdminRequired(st, caller) && e in st.employees
    ensures var incs := DeleteEmployee(st, caller, e, now).store.incidents;
      && incs.Keys == st.incidents.Keys
      && BlankAssignees(incs, st.incidents, e, now) == Unassigned(st.incidents, e, now)
  {
    var incs := DeleteEmployee(st, caller, e, now).store.incidents;
    DeleteCascade(st, caller, e, now);
    var open := OpenIncidents(st, e);
    var pool := ReassignmentPool(st, e);
    var blanked := BlankAssignees(incs, st.incidents, e, now);
    var want := Unassigned(st.incidents, e, now);
    forall id | id in st.incidents
      ensures blanked[id] == want[id]
    {
      if id in OpenIncidentIds(st, e) {
        var k :| 0 <= k < |open| && open[k] == id;
        BlankReassigned(st.incidents[id], e, TargetFor(k, pool, caller), now);
      }
    }
  }

  /** DELETE /<id> as committed: the loop sets the `assigned_employee_id`
      column, not the relationship, so every incident stays in the deleted
      employee's joined-loaded collection and the delete blanks them all. The
      committed store is the delete with the reassignment loop taken out. */
  function DeleteEmployeeAsCommitted(st: Store, caller: int, e: int, now: int): (r: Handled<DeleteReply>)
    ensures r.result == DeleteEmployee(st, caller, e, now).result
    ensures r.result.Fail? ==> r.store == st
    ensures r.result.Ok? ==>
      r.store == st.(employees := st.employees - {e}, incidents := Unassigned(st.incidents, e, now))
  {
    var d := DeleteEmployee(st, caller, e, now);
    if d.result.Fail? then d
    else
      CommittedIncidents(st, caller, e, now);
      Handled(d.result, d.store.(incidents := BlankAssignees(d.store.incidents, st.incidents, e, now)))
  }

  /** The reassignment is lost on commit: the first open incident, which the
      loop hands to `TargetFor(0)`, is stored with no assignee at all. */
  lemma CommitDropsReassignment(st: Store, caller: int, e: int, now: int)
    requires AdminRequired(st, caller) && e in st.employees && OpenIncidentIds(st, e) != {}
    ensures var open := OpenIncidents(st, e);
      && |open| > 0
      && DeleteEmployee(st, caller, e, now).store.incidents[open[0]].assignedId
           == Some(TargetFor(0, ReassignmentPool(st, e), caller))
      && DeleteEmployeeAsCommitted(st, caller, e, now).store.incidents[open[0]].assignedId.None?
  {
    var open := OpenIncidents(st, e);
    var k :| k in OpenIncidentIds(st, e);
    assert k in open;
    assert open[0] in OpenIncidentIds(st, e);
    DeleteCascade(st, caller, e, now);
  }

  /** An admin who deletes themself while holding open incidents and with no
      "user" employee left gets their incidents back, still pointing at the
      now-deleted row. */
  lemma SelfDeleteLeavesDanglingAssignee()
    ensures var st := Store(
              map[2 := Employee("Admin", "Root", None, Some("a@x"), None, Some(AdminRole), "h")],
              map[], map[1 := IncidentStatus("новый", None)],
              map[4 := Incident("t", None, "k", None, None, Some(2), 1, None, 0, 0)],
              map[], map[], map[]);
      var st' := DeleteEmployee(st, 2, 2, 5).store;
      2 !in st'.employees && st'.incidents[4].assignedId == Some(2)
  {
    var st := Store(
      map[2 := Employee("Admin", "Root", None, Some("a@x"), None, Some(AdminRole), "h")],
      map[], map[1 := IncidentStatus("новый", None)],
      map[4 := Incident("t", None, "k", None, None, Some(2), 1, None, 0, 0)],
      map[], map[], map[]);
    assert "новый" != CompletedName;
    assert OpenIncidentIds(st, 2) == {4};
    assert OpenIncidents(st, 2) == [4];
    assert ReassignmentPool(st, 2) == [];
  }
}
