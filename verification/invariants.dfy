/** Store-wide constraints of back/models.py that every route keeps: child rows
    stay attached to an existing incident, and no two employees share an
    email. */
module Invariants {
  import opened Base
  import opened Models
  import opened Schemas
  import opened Access
  import opened Incidents
  import opened Employees
  import opened Auth
  import opened Seeding

  /** Creating an incident only adds an incident row. */
  lemma CreateIncidentKeepsChildrenAttached(st: Store, caller: int, p: Payload, now: int)
    requires ChildrenAttached(st)
    ensures ChildrenAttached(CreateIncident(st, caller, p, now).store)
  {
    var r := CreateIncident(st, caller, p, now);
    if r.result.Ok? {
      GrowingIncidentsKeepChildren(st, r.store);
    }
  }

  /** Editing an incident keeps every incident row. */
  lemma UpdateIncidentKeepsChildrenAttached(st: Store, caller: int, id: int, p: Payload, now: int)
    requires ChildrenAttached(st)
    ensures ChildrenAttached(UpdateIncident(st, caller, id, p, now).store)
  {
    var r := UpdateIncident(st, caller, id, p, now);
    if r.result.Ok? {
      GrowingIncidentsKeepChildren(st, r.store);
    }
  }

  /** Assigning keeps every incident row. */
  lemma AssignIncidentKeepsChildrenAttached(st: Store, caller: int, id: int, e: int, now: int)
    requires ChildrenAttached(st)
    ensures ChildrenAttached(AssignIncident(st, caller, id, e, now).store)
  {
    var r := AssignIncident(st, caller, id, e, now);
    if r.result.Ok? && r.result.value.Assigned? {
      GrowingIncidentsKeepChildren(st, r.store);
    }
  }

  /** Completing keeps every incident row. */
  lemma CompleteIncidentKeepsChildrenAttached(st: Store, caller: int, id: int, now: int)
    requires ChildrenAttached(st)
    ensures ChildrenAttached(CompleteIncident(st, caller, id, now).store)
  {
    var r := CompleteIncident(st, caller, id, now);
    if r.result.Ok? {
      GrowingIncidentsKeepChildren(st, r.store);
    }
  }

  /** The deletion cascade rewrites assignees only, so child rows stay attached. */
  lemma DeleteEmployeeKeepsChildrenAttached(st: Store, caller: int, e: int, now: int)
    requires ChildrenAttached(st)
    ensures ChildrenAttached(DeleteEmployee(st, caller, e, now).store)
  {
    var d := DeleteEmployee(st, caller, e, now);
    if AdminRequired(st, caller) && e in st.employees {
      GrowingIncidentsKeepChildren(st, d.store);
    }
  }

  /** `admin_required` in front of each incident route it guards: the answer
      is 403, with the store untouched, exactly when the caller has no row or
      its role is not "admin". No guarded route answers 403 for any other
      reason. */
  lemma AdminGuardIncidents(st: Store, caller: int, id: int, e: int, p: Payload, now: int)
    ensures !AdminRequired(st, caller) <==> GetAllIncidents(st, caller) == Fail(Forbidden)
    ensures !AdminRequired(st, caller) <==> CreateIncident(st, caller, p, now) == Handled(Fail(Forbidden), st)
    ensures !AdminRequired(st, caller) <==> UpdateIncident(st, caller, id, p, now) == Handled(Fail(Forbidden), st)
    ensures !AdminRequired(st, caller) <==> DeleteIncident(st, caller, id) == Handled(Fail(Forbidden), st)
    ensures !AdminRequired(st, caller) <==> AssignIncident(st, caller, id, e, now) == Handled(Fail(Forbidden), st)
  {
    if AdminRequired(st, caller) {
      assert AssignIncident(st, caller, id, e, now).result != Fail(Forbidden);
    }
  }

  /** The same guard on the employee routes. */
  lemma AdminGuardEmployees(st: Store, caller: int, id: int, p: Payload, now: int, hash: string -> string)
    requires "id" !in p
    ensures !AdminRequired(st, caller) <==> GetAllEmployees(st, caller) == Fail(Forbidden)
    ensures !AdminRequired(st, caller) <==> CreateEmployee(st, caller, p, hash) == Handled(Fail(Forbidden), st)
    ensures !AdminRequired(st, caller) <==> UpdateEmployee(st, caller, id, p, hash) == Handled(Fail(Forbidden), st)
    ensures !AdminRequired(st, caller) <==> DeleteEmployee(st, caller, id, now) == Handled(Fail(Forbidden), st)
  {
  }

  /** A store change that keeps the child tables and every incident id. */
  lemma GrowingIncidentsKeepChildren(st: Store, st': Store)
    requires ChildrenAttached(st)
    requires st'.responses == st.responses && st'.sources == st.sources && st'.attachments == st.attachments
    requires st.incidents.Keys <= st'.incidents.Keys
    ensures ChildrenAttached(st')
  {
  }

  /** The UNIQUE email column holds across every route that writes employees. */
  lemma RoutesKeepEmailsUnique(st: Store, caller: int, id: int, p: Payload, hash: string -> string)
    requires EmailsUnique(st.employees)
    requires "id" !in p
    ensures EmailsUnique(CreateEmployee(st, caller, p, hash).store.employees)
    ensures EmailsUnique(UpdateEmployee(st, caller, id, p, hash).store.employees)
    ensures EmailsUnique(Register(st, p, hash).store.employees)
    ensures EmailsUnique(CreateAdmin(st, hash).employees)
  {
  }
}
