/** The incident routes of back/routes/incidents.py as transitions of the
    store. `caller` is the employee id carried by the access token. */
module Incidents {
  import opened Base
  import opened Text
  import opened Models
  import opened Queries
  import opened Schemas
  import opened Access

  // ----------------------------------------------------------------- listing

  /** GET /: every incident, newest `incident_datetime` first (admins only). */
  function GetAllIncidents(st: Store, caller: int): (r: Result<seq<int>>)
    ensures !AdminRequired(st, caller) <==> r == Fail(Forbidden)
    ensures r.Ok? ==> NoDup(r.value) && NewestFirst(r.value, st.incidents)
    ensures r.Ok? ==> forall id :: id in r.value <==> id in st.incidents
  {
    if !AdminRequired(st, caller) then Fail(Forbidden)
    else Ok(ListNewestFirst(st.incidents, st.incidents.Keys))
  }

  /** GET /my: the caller's incidents, newest first; 404 when the caller's row
      is gone. Any authenticated employee may ask. */
  function GetMyIncidents(st: Store, caller: int): (r: Result<seq<int>>)
    ensures caller !in st.employees <==> r == Fail(NotFound)
    ensures r.Ok? ==> NoDup(r.value) && NewestFirst(r.value, st.incidents)
    ensures r.Ok? ==> forall id :: id in r.value <==>
      id in st.incidents && st.incidents[id].assignedId == Some(caller)
  {
    if caller !in st.employees then Fail(NotFound)
    else Ok(ListNewestFirst(st.incidents, set id | id in st.incidents && st.incidents[id].assignedId == Some(caller)))
  }

  // ------------------------------------------------------- create and update

  /** The row a create starts from: no optional column set, the status default,
      and the insertion time in the timestamp columns. */
  function FreshIncident(now: int): Incident
  {
    Incident("", None, "", None, None, None, NewStatusId, None, now, now)
  }

  /** POST: the payload's `status_id` is overwritten with 1 before loading, so
      every created incident is "new". A NULL `incident_datetime` is left out
      of the INSERT and takes the column default, the current time.
      `assigned_employee_id` is stored as given; the employee it names is only
      looked up for a log line and is not changed. */
  function CreateIncident(st: Store, caller: int, p: Payload, now: int): (r: Handled<int>)
    ensures !AdminRequired(st, caller) ==> r == Handled(Fail(Forbidden), st)
    ensures r.result == Fail(Forbidden) ==> !AdminRequired(st, caller)
    ensures r.result.Fail? ==> r.store == st
    ensures AdminRequired(st, caller) ==>
      (r.result.Ok? <==> LoadIncident(p["status_id" := JInt(NewStatusId)], FreshIncident(now), false).Valid?)
    ensures r.result.Ok? ==>
      var id := r.result.value;
      && id !in st.incidents
      && OnlyIncidentChanged(st, r.store, id)
      && r.store.incidents[id].statusId == NewStatusId
      && r.store.incidents[id].assignedId == IntOf(Get(p, "assigned_employee_id"))
      && r.store.incidents[id].occurredAt.Some?
      && r.store.incidents[id].createdAt == now
    ensures r.result.Ok? ==>
      var l := LoadIncident(p["status_id" := JInt(NewStatusId)], FreshIncident(now), false).value;
      r.store.incidents[r.result.value] == if l.occurredAt.None? then l.(occurredAt := Some(now)) else l
  {
    if !AdminRequired(st, caller) then Handled(Fail(Forbidden), st)
    else
      match LoadIncident(p["status_id" := JInt(NewStatusId)], FreshIncident(now), false)
      case Invalid => Handled(Fail(BadRequest), st)
      case Valid(inc) =>
        var row := if inc.occurredAt.None? then inc.(occurredAt := Some(now)) else inc;
        var id := NextId(st.incidents);
        Handled(Ok(id), st.(incidents := st.incidents[id := row]))
  }

  /** PUT /<id>: a partial load onto the stored row. There is no status guard:
      a completed incident can be edited, reassigned or reopened here. */
  function UpdateIncident(st: Store, caller: int, id: int, p: Payload, now: int): (r: Handled<Incident>)
    ensures !AdminRequired(st, caller) ==> r == Handled(Fail(Forbidden), st)
    ensures r.result == Fail(Forbidden) ==> !AdminRequired(st, caller)
    ensures AdminRequired(st, caller) && id !in st.incidents ==> r == Handled(Fail(NotFound), st)
    ensures r.result.Fail? ==> r.store == st
    ensures AdminRequired(st, caller) && id in st.incidents ==>
      (r.result.Ok? <==> LoadIncident(p, st.incidents[id], true).Valid?)
    ensures r.result.Ok? ==>
      && OnlyIncidentChanged(st, r.store, id)
      && r.result.value == r.store.incidents[id]
      && r.store.incidents[id] == Stamp(st.incidents[id], LoadIncident(p, st.incidents[id], true).value, now)
  {
    if !AdminRequired(st, caller) then Handled(Fail(Forbidden), st)
    else if id !in st.incidents then Handled(Fail(NotFound), st)
    else
      match LoadIncident(p, st.incidents[id], true)
      case Invalid => Handled(Fail(BadRequest), st)
      case Valid(inc) =>
        var row := Stamp(st.incidents[id], inc, now);
        Handled(Ok(row), st.(incidents := st.incidents[id := row]))
  }

  /** DELETE /<id>: removes the incident row and nothing else. The child
      relationships have no delete cascade, so the ORM blanks the NOT NULL
      `incident_id` of any child row and the commit fails. */
  function DeleteIncident(st: Store, caller: int, id: int): (r: Handled<()>)
    ensures !AdminRequired(st, caller) ==> r == Handled(Fail(Forbidden), st)
    ensures r.result == Fail(Forbidden) ==> !AdminRequired(st, caller)
    ensures AdminRequired(st, caller) ==>
      if id !in st.incidents then r == Handled(Fail(NotFound), st)
      else if HasChildren(st, id) then r == Handled(Fail(ServerError), st)
      else r.result.Ok? && r.store == st.(incidents := st.incidents - {id})
    ensures ChildrenAttached(st) ==> ChildrenAttached(r.store)
  {
    if !AdminRequired(st, caller) then Handled(Fail(Forbidden), st)
    else if id !in st.incidents then Handled(Fail(NotFound), st)
    else if HasChildren(st, id) then Handled(Fail(ServerError), st)
    else Handled(Ok(()), st.(incidents := st.incidents - {id}))
  }

  // -------------------------------------------------------------- assignment

  datatype AssignReply =
    | AlreadyAssigned
    | Assigned(incidentId: int, assignedTo: int, message: string)

  /** The status check of `assign_incident`. A `status_id` of 0 is falsy and
      skips the check; otherwise the status name is lower-cased and compared
      with "закрыт" and "завершён". */
  predicate TerminalForAssign(st: Store, inc: Incident)
    requires inc.statusId != 0 ==> inc.statusId in st.statuses
  {
    inc.statusId != 0 && Lower(st.statuses[inc.statusId].name) in {ClosedName, CompletedName}
  }

  /** POST /<id>/assign/<employee>: the guards run in the order not found,
      already assigned, terminal status. Neither the target's role nor whether
      it already holds open incidents is consulted. */
  function AssignIncident(st: Store, caller: int, incidentId: int, employeeId: int, now: int): (r: Handled<AssignReply>)
    ensures r.result.Fail? ==> r.store == st
    ensures !AdminRequired(st, caller) ==> r.result == Fail(Forbidden)
    ensures AdminRequired(st, caller) && (incidentId !in st.incidents || employeeId !in st.employees) ==>
      r.result == Fail(NotFound)
    ensures AdminRequired(st, caller) && incidentId in st.incidents && employeeId in st.employees ==>
      var inc := st.incidents[incidentId];
      if inc.assignedId == Some(employeeId) then r == Handled(Ok(AlreadyAssigned), st)
      else if inc.statusId != 0 && inc.statusId !in st.statuses then r.result == Fail(ServerError)
      else if TerminalForAssign(st, inc) then r.result == Fail(BadRequest)
      else r.result.Ok? && r.result.value.Assigned?
    ensures r.result.Ok? && r.result.value.Assigned? ==>
      && r.result.value.incidentId == incidentId && r.result.value.assignedTo == employeeId
      && OnlyIncidentChanged(st, r.store, incidentId)
      && r.store.incidents[incidentId].assignedId == Some(employeeId)
      && r.store.incidents[incidentId] == st.incidents[incidentId].(assignedId := Some(employeeId), updatedAt := now)
  {
    if !AdminRequired(st, caller) then Handled(Fail(Forbidden), st)
    else if incidentId !in st.incidents || employeeId !in st.employees then Handled(Fail(NotFound), st)
    else
      var inc := st.incidents[incidentId];
      var emp := st.employees[employeeId];
      if inc.assignedId == Some(employeeId) then Handled(Ok(AlreadyAssigned), st)
      else if inc.statusId != 0 && inc.statusId !in st.statuses then Handled(Fail(ServerError), st)
      else if TerminalForAssign(st, inc) then Handled(Fail(BadRequest), st)
      else
        var row := Stamp(inc, inc.(assignedId := Some(employeeId)), now);
        var message := "Инцидент назначен " + emp.firstName + " " + emp.lastName;
        Handled(Ok(Assigned(incidentId, employeeId, message)), st.(incidents := st.incidents[incidentId := row]))
  }

  // -------------------------------------------------------------- completion

  /** POST /<id>/complete with the owner check comparing ids: only the assignee
      may complete; the status row is looked up by the exact name "завершён". */
  function CompleteIncident(st: Store, caller: int, incidentId: int, now: int): (r: Handled<()>)
    ensures r.result.Fail? ==> r.store == st
    ensures incidentId !in st.incidents <==> r.result == Fail(NotFound)
    ensures incidentId in st.incidents && st.incidents[incidentId].assignedId != Some(caller) ==>
      r.result == Fail(Forbidden)
    ensures incidentId in st.incidents && st.incidents[incidentId].assignedId == Some(caller) ==>
      (r.result == Fail(ServerError) <==> CompletedStatusId(st).None?)
    ensures r.result.Ok? ==>
      && st.incidents[incidentId].assignedId == Some(caller)
      && OnlyIncidentChanged(st, r.store, incidentId)
      && r.store.incidents[incidentId].statusId == CompletedStatusId(st).value
      && r.store.incidents[incidentId].(statusId := st.incidents[incidentId].statusId, updatedAt := 0)
         == st.incidents[incidentId].(updatedAt := 0)
  {
    if incidentId !in st.incidents then Handled(Fail(NotFound), st)
    else
      var inc := st.incidents[incidentId];
      if inc.assignedId != Some(caller) then Handled(Fail(Forbidden), st)
      else
        match CompletedStatusId(st)
        case None => Handled(Fail(ServerError), st)
        case Some(sid) =>
          Handled(Ok(()), st.(incidents := st.incidents[incidentId := Stamp(inc, inc.(statusId := sid), now)]))
  }

  /** The Python values on either side of the owner check. */
  datatype PyValue = PyNone | PyInt(n: int) | PyStr(s: string)

  /** Python `==`: values of different types are never equal. */
  predicate PyEquals(a: PyValue, b: PyValue)
  {
    a == b
  }

  function PyOfId(o: Option<int>): PyValue
  {
    if o.Some? then PyInt(o.value) else PyNone
  }

  /** POST /<id>/complete as written: the token identity is the string that
      `login` issued (`str(user.id)`), and it is compared with the integer
      `assigned_employee_id`. */
  function CompleteAsWritten(st: Store, identity: string, incidentId: int, now: int): (r: Handled<()>)
    ensures incidentId !in st.incidents <==> r.result == Fail(NotFound)
    ensures r.result.Fail? ==> r.store == st
  {
    if incidentId !in st.incidents then Handled(Fail(NotFound), st)
    else
      var inc := st.incidents[incidentId];
      if !PyEquals(PyOfId(inc.assignedId), PyStr(identity)) then Handled(Fail(Forbidden), st)
      else
        match CompletedStatusId(st)
        case None => Handled(Fail(ServerError), st)
        case Some(sid) =>
          Handled(Ok(()), st.(incidents := st.incidents[incidentId := Stamp(inc, inc.(statusId := sid), now)]))
  }

  // ------------------------------------------------------------------ lemmas

  /** Assigning the same pair twice: the second call answers "already
      assigned" and changes nothing. */
  lemma AssignTwice(st: Store, caller: int, i: int, e: int, now: int, later: int)
    requires AssignIncident(st, caller, i, e, now).result.Ok?
    ensures var st1 := AssignIncident(st, caller, i, e, now).store;
      AssignIncident(st1, caller, i, e, later) == Handled(Ok(AlreadyAssigned), st1)
  {
  }

  /** The already-assigned answer comes before the status check, so it is also
      given for a completed incident. */
  lemma AssignCompletedToCurrentAssignee(st: Store, caller: int, i: int, e: int, now: int)
    requires AdminRequired(st, caller) && i in st.incidents && e in st.employees
    requires st.incidents[i].assignedId == Some(e)
    requires st.incidents[i].statusId in st.statuses
    requires st.statuses[st.incidents[i].statusId].name == CompletedName
    ensures AssignIncident(st, caller, i, e, now) == Handled(Ok(AlreadyAssigned), st)
  {
  }

  /** A completed (or closed) incident cannot be handed to someone else. */
  lemma AssignTerminalRejected(st: Store, caller: int, i: int, e: int, now: int)
    requires AdminRequired(st, caller) && i in st.incidents && e in st.employees
    requires st.incidents[i].assignedId != Some(e)
    requires st.incidents[i].statusId != 0 && st.incidents[i].statusId in st.statuses
    requires st.statuses[st.incidents[i].statusId].name in {ClosedName, CompletedName}
    ensures AssignIncident(st, caller, i, e, now) == Handled(Fail(BadRequest), st)
  {
    var name := st.statuses[st.incidents[i].statusId].name;
    CompletedNameIsLower();
    ClosedNameIsLower();
    assert Lower(name) == name;
  }

  lemma ClosedNameIsLower()
    ensures Lower(ClosedName) == ClosedName
  {
    assert forall i :: 0 <= i < |ClosedName| ==> LowerChar(ClosedName[i]) == ClosedName[i];
  }

  /** Completing is harmless to repeat: the second call succeeds and leaves the
      store as the first one left it, `updated_at` included. */
  lemma CompleteTwice(st: Store, caller: int, i: int, now: int, later: int)
    requires CompleteIncident(st, caller, i, now).result.Ok?
    ensures var st1 := CompleteIncident(st, caller, i, now).store;
      CompleteIncident(st1, caller, i, later) == Handled(Ok(()), st1)
  {
    var st1 := CompleteIncident(st, caller, i, now).store;
    assert st1.statuses == st.statuses;
  }

  /** An edit of a completed incident goes through: the route has no status
      guard, and the edit may even move it out of the completed status. */
  lemma UpdateCompletedAllowed(st: Store, caller: int, i: int, sid: int, now: int)
    requires AdminRequired(st, caller) && i in st.incidents
    requires st.incidents[i].statusId in st.statuses
    requires st.statuses[st.incidents[i].statusId].name == CompletedName
    requires MinInteger <= sid <= MaxInteger
    ensures var r := UpdateIncident(st, caller, i, map["status_id" := JInt(sid)], now);
      r.result.Ok? && r.store.incidents[i].statusId == sid
  {
    var p := map["status_id" := JInt(sid)];
    assert p.Keys == {"status_id"};
  }

  /** As written, `complete_incident` rejects every caller, the assignee
      included: an int (or None) never equals the string identity. */
  lemma CompleteAsWrittenAlwaysForbidden(st: Store, identity: string, i: int, now: int)
    requires i in st.incidents
    ensures CompleteAsWritten(st, identity, i, now) == Handled(Fail(Forbidden), st)
  {
  }

  /** The concrete case: employee 5 logs in, receives identity "5", and cannot
      complete incident 1 assigned to them, while the id-comparing version
      completes it. */
  lemma CompleteIdentityWitness()
    ensures var st := Store(
              map[5 := Employee("Ivan", "Petrov", None, Some("ivan@airport.com"), None, Some(UserRole), "h")],
              map[], map[3 := IncidentStatus(CompletedName, None)],
              map[1 := Incident("t", None, "k", None, None, Some(5), 1, None, 0, 0)],
              map[], map[], map[]);
      && CompleteAsWritten(st, IntToString(5), 1, 9).result == Fail(Forbidden)
      && ParseInt(IntToString(5)) == Some(5)
      && CompleteIncident(st, 5, 1, 9).result.Ok?
      && CompleteIncident(st, 5, 1, 9).store.incidents[1].statusId == 3
  {
    var st := Store(
      map[5 := Employee("Ivan", "Petrov", None, Some("ivan@airport.com"), None, Some(UserRole), "h")],
      map[], map[3 := IncidentStatus(CompletedName, None)],
      map[1 := Incident("t", None, "k", None, None, Some(5), 1, None, 0, 0)],
      map[], map[], map[]);
    IdentityRoundTrip(5);
    assert 3 in st.statuses && st.statuses[3].name == CompletedName;
    assert CompletedStatusId(st).value in st.statuses.Keys;
  }

  /** With the identity read back through `int(...)`, the assignee who logged
      in can complete the incident whenever the "завершён" status exists. */
  lemma AssigneeCanComplete(st: Store, e: int, i: int, now: int)
    requires i in st.incidents && st.incidents[i].assignedId == Some(e)
    requires exists k :: k in st.statuses && st.statuses[k].name == CompletedName
    ensures ParseInt(IntToString(e)) == Some(e)
    ensures CompleteIncident(st, ParseInt(IntToString(e)).value, i, now).result.Ok?
  {
    IdentityRoundTrip(e);
  }
}
