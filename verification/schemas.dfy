/** The marshmallow schemas of back/schemas/incident_schema.py: which JSON keys
    an incident or employee payload may carry, which it must carry, how each
    value is checked against its column, and the computed `full_name` and
    `is_busy` fields of an employee dump. */
module Schemas {
  import opened Base
  import opened Text
  import opened Models
  import opened Queries

  /** A JSON value as the routes receive it; timestamps travel as clock readings. */
  datatype Json = JNull | JInt(i: int) | JStr(s: string)

  /** A request body: a JSON object. */
  type Payload = map<string, Json>

  /** `data.get(key)`: the value, or null when the key is absent. */
  function Get(p: Payload, key: string): Json
  {
    if key in p then p[key] else JNull
  }

  function TextJson(o: Option<string>): Json
  {
    if o.Some? then JStr(o.value) else JNull
  }

  function IntJson(o: Option<int>): Json
  {
    if o.Some? then JInt(o.value) else JNull
  }

  /** Outcome of deserialising a payload: the loaded row or a ValidationError. */
  datatype Loaded<T> = Valid(value: T) | Invalid

  /** The check the generated field of a `String(maxLen)` column applies:
      a string within the length limit, or null when the column is nullable. */
  predicate TextOk(j: Json, maxLen: int, nullable: bool)
  {
    (j.JStr? && |j.s| <= maxLen) || (j.JNull? && nullable)
  }

  /** The integer a value stands for in marshmallow's non-strict `Integer`
      field, which also takes a string that `int()` accepts; `None` for null
      and for any other string. */
  function IntOf(j: Json): Option<int>
  {
    match j
    case JNull => None
    case JInt(i) => Some(i)
    case JStr(s) => ParseInt(s)
  }

  /** The range SQLite can bind an integer parameter in: a signed 64-bit
      value. A wider number passes the schema but makes the commit raise,
      which the routes catch and answer like a failed load. */
  const MinInteger: int := -0x8000_0000_0000_0000
  const MaxInteger: int := 0x7FFF_FFFF_FFFF_FFFF

  /** The check of an Integer column's field, with the commit's range check. */
  predicate IntOk(j: Json, nullable: bool)
  {
    (IntOf(j).Some? && MinInteger <= IntOf(j).value <= MaxInteger) || (j.JNull? && nullable)
  }

  /** The check of a DateTime column's field; a DateTime travels as a clock
      reading. */
  predicate ClockOk(j: Json)
  {
    j.JInt? || j.JNull?
  }

  // ---------------------------------------------------------------- incidents

  /** Keys `IncidentSchema` accepts on load: its column fields minus the
      dump-only ones. */
  const IncidentLoadable: set<string> :=
    {"title", "description", "incident_type", "incident_datetime", "location_id",
     "status_id", "assigned_employee_id", "conclusion"}

  /** Keys `IncidentSchema` only ever writes: the `Meta.dump_only` columns and
      the nested objects. On load they count as unknown fields. */
  const IncidentDumpOnly: set<string> :=
    {"id", "created_at", "updated_at", "assigned_employee", "status", "location",
     "responses", "sources", "attachments"}

  /** Keys a full (non-partial) incident load requires: `title` is declared
      required, `incident_type` is a NOT NULL column without a default. */
  const IncidentRequired: set<string> := {"title", "incident_type"}

  /** Every present key holds a value its column accepts. `description` and
      `conclusion` are unbounded Text columns. */
  predicate IncidentFieldsOk(p: Payload)
  {
    && ("title" in p ==> TextOk(p["title"], 150, false))
    && ("incident_type" in p ==> TextOk(p["incident_type"], 50, false))
    && ("description" in p ==> p["description"].JStr? || p["description"].JNull?)
    && ("conclusion" in p ==> p["conclusion"].JStr? || p["conclusion"].JNull?)
    && ("incident_datetime" in p ==> ClockOk(p["incident_datetime"]))
    && ("location_id" in p ==> IntOk(p["location_id"], true))
    && ("assigned_employee_id" in p ==> IntOk(p["assigned_employee_id"], true))
    && ("status_id" in p ==> IntOk(p["status_id"], false))
  }

  /** The new value of a NOT NULL text column: the payload's string when the
      key is present, the current value otherwise. */
  function TakeText(p: Payload, key: string, current: string): (v: string)
    requires key in p ==> p[key].JStr?
    ensures if key in p then JStr(v) == p[key] else v == current
  {
    if key in p then p[key].s else current
  }

  /** The new value of a nullable text column. */
  function TakeOptText(p: Payload, key: string, current: Option<string>): (v: Option<string>)
    requires key in p ==> p[key].JStr? || p[key].JNull?
    ensures if key in p then TextJson(v) == p[key] else v == current
  {
    if key !in p then current else if p[key].JStr? then Some(p[key].s) else None
  }

  /** The new value of a NOT NULL integer column. */
  function TakeInt(p: Payload, key: string, current: int): (v: int)
    requires key in p ==> IntOf(p[key]).Some?
    ensures if key in p then Some(v) == IntOf(p[key]) else v == current
  {
    if key in p then IntOf(p[key]).value else current
  }

  /** The new value of a nullable integer or DateTime column: null clears it. */
  function TakeOptInt(p: Payload, key: string, current: Option<int>): (v: Option<int>)
    requires key in p ==> IntOf(p[key]).Some? || p[key].JNull?
    ensures key in p && p[key].JNull? ==> v.None?
    ensures key in p && !p[key].JNull? ==> v.Some? && v == IntOf(p[key])
    ensures key !in p ==> v == current
  {
    if key !in p then current else IntOf(p[key])
  }

  /** `IncidentSchema().load(p, instance=base, partial=partial)`: the load fails
      on an unknown or dump-only key, on a missing required key (full loads
      only) and on a value its column refuses; otherwise every present key
      overwrites its column of `base` and every absent one leaves it. */
  function LoadIncident(p: Payload, base: Incident, partial: bool): (r: Loaded<Incident>)
    ensures r.Valid? <==>
      && p.Keys <= IncidentLoadable
      && (partial || IncidentRequired <= p.Keys)
      && IncidentFieldsOk(p)
    ensures forall k :: k in p && k in IncidentDumpOnly ==> r.Invalid?
    ensures r.Valid? ==>
      var inc := r.value;
      && (if "title" in p then JStr(inc.title) == p["title"] else inc.title == base.title)
      && (if "incident_type" in p then JStr(inc.incidentType) == p["incident_type"] else inc.incidentType == base.incidentType)
      && (if "description" in p then TextJson(inc.description) == p["description"] else inc.description == base.description)
      && (if "conclusion" in p then TextJson(inc.conclusion) == p["conclusion"] else inc.conclusion == base.conclusion)
      && (if "incident_datetime" in p then IntJson(inc.occurredAt) == p["incident_datetime"] else inc.occurredAt == base.occurredAt)
      && (if "location_id" in p then inc.locationId == IntOf(p["location_id"]) else inc.locationId == base.locationId)
      && (if "assigned_employee_id" in p then inc.assignedId == IntOf(p["assigned_employee_id"]) else inc.assignedId == base.assignedId)
      && (if "status_id" in p then Some(inc.statusId) == IntOf(p["status_id"]) else inc.statusId == base.statusId)
      && inc.createdAt == base.createdAt && inc.updatedAt == base.updatedAt
  {
    if !(p.Keys <= IncidentLoadable) || (!partial && !(IncidentRequired <= p.Keys))
       || !IncidentFieldsOk(p)
    then Invalid
    else
      Valid(base.(
        title := TakeText(p, "title", base.title),
        incidentType := TakeText(p, "incident_type", base.incidentType),
        description := TakeOptText(p, "description", base.description),
        conclusion := TakeOptText(p, "conclusion", base.conclusion),
        occurredAt := TakeOptInt(p, "incident_datetime", base.occurredAt),
        locationId := TakeOptInt(p, "location_id", base.locationId),
        assignedId := TakeOptInt(p, "assigned_employee_id", base.assignedId),
        statusId := TakeInt(p, "status_id", base.statusId)))
  }

  /** An Integer key sent as the text `str(n)` loads exactly as the number
      `n` itself: the same verdict and the same row. */
  lemma NumericTextLoadsAsInteger(p: Payload, base: Incident, partial: bool, key: string, n: int)
    requires key in {"location_id", "status_id", "assigned_employee_id"}
    ensures LoadIncident(p[key := JStr(IntToString(n))], base, partial)
         == LoadIncident(p[key := JInt(n)], base, partial)
  {
    IdentityRoundTrip(n);
  }

  // ---------------------------------------------------------------- employees

  /** Keys `EmployeeSchema` accepts on load (the primary key aside). */
  const EmployeeLoadable: set<string> :=
    {"first_name", "last_name", "position", "email", "phone", "role", "password"}

  /** The computed `fields.Method` keys, which are dump-only. */
  const EmployeeDumpOnly: set<string> := {"full_name", "is_busy"}

  /** The NOT NULL columns without a default. */
  const EmployeeRequired: set<string> := {"first_name", "last_name", "password"}

  predicate EmployeeFieldsOk(p: Payload)
  {
    && ("first_name" in p ==> TextOk(p["first_name"], 100, false))
    && ("last_name" in p ==> TextOk(p["last_name"], 100, false))
    && ("password" in p ==> TextOk(p["password"], 200, false))
    && ("position" in p ==> TextOk(p["position"], 100, true))
    && ("email" in p ==> TextOk(p["email"], 100, true))
    && ("phone" in p ==> TextOk(p["phone"], 20, true))
    && ("role" in p ==> TextOk(p["role"], 50, true))
  }

  /** `EmployeeSchema().load(p, instance=base, partial=partial)`, with the same
      rules as `LoadIncident`. */
  function LoadEmployee(p: Payload, base: Employee, partial: bool): (r: Loaded<Employee>)
    requires "id" !in p
    ensures r.Valid? <==>
      && p.Keys <= EmployeeLoadable
      && (partial || EmployeeRequired <= p.Keys)
      && EmployeeFieldsOk(p)
    ensures forall k :: k in p && k in EmployeeDumpOnly ==> r.Invalid?
    ensures r.Valid? ==>
      var e := r.value;
      && (if "first_name" in p then JStr(e.firstName) == p["first_name"] else e.firstName == base.firstName)
      && (if "last_name" in p then JStr(e.lastName) == p["last_name"] else e.lastName == base.lastName)
      && (if "password" in p then JStr(e.password) == p["password"] else e.password == base.password)
      && (if "position" in p then TextJson(e.position) == p["position"] else e.position == base.position)
      && (if "email" in p then TextJson(e.email) == p["email"] else e.email == base.email)
      && (if "phone" in p then TextJson(e.phone) == p["phone"] else e.phone == base.phone)
      && (if "role" in p then TextJson(e.role) == p["role"] else e.role == base.role)
  {
    if !(p.Keys <= EmployeeLoadable) || (!partial && !(EmployeeRequired <= p.Keys))
       || !EmployeeFieldsOk(p)
    then Invalid
    else
      Valid(base.(
        firstName := TakeText(p, "first_name", base.firstName),
        lastName := TakeText(p, "last_name", base.lastName),
        password := TakeText(p, "password", base.password),
        position := TakeOptText(p, "position", base.position),
        email := TakeOptText(p, "email", base.email),
        phone := TakeOptText(p, "phone", base.phone),
        role := TakeOptText(p, "role", base.role)))
  }

  // ------------------------------------------------------------ employee dump

  /** Whether incident `id` makes employee `e` busy for `get_is_busy`: it is
      assigned to `e`, its status row exists, and the lower-cased status name
      is not "завершён". */
  predicate BusyBy(st: Store, e: int, id: int)
  {
    && id in st.incidents
    && st.incidents[id].assignedId == Some(e)
    && st.incidents[id].statusId in st.statuses
    && Lower(st.statuses[st.incidents[id].statusId].name) != CompletedName
  }

  /** `any(...)` over the incidents in `ids`. */
  function AnyBusy(st: Store, e: int, ids: seq<int>): (b: bool)
    ensures b <==> exists i :: 0 <= i < |ids| && BusyBy(st, e, ids[i])
  {
    if ids == [] then false
    else if BusyBy(st, e, ids[0]) then true
    else
      var b := AnyBusy(st, e, ids[1..]);
      assert b ==> exists i :: 0 < i < |ids| && BusyBy(st, e, ids[i]) by {
        if b {
          var i :| 0 <= i < |ids[1..]| && BusyBy(st, e, ids[1..][i]);
          assert ids[i + 1] == ids[1..][i];
        }
      }
      b
  }

  /** `EmployeeSchema.get_is_busy`: some incident assigned to `e` has a status
      whose lower-cased name differs from "завершён". */
  function IsBusy(st: Store, e: int): (b: bool)
    ensures b <==> exists id :: BusyBy(st, e, id)
  {
    var ids := SortedKeys(st.incidents.Keys);
    var b := AnyBusy(st, e, ids);
    assert (exists id :: BusyBy(st, e, id)) ==> b by {
      if id :| BusyBy(st, e, id) {
        var i :| 0 <= i < |ids| && ids[i] == id;
      }
    }
    b
  }

  /** What `EmployeeSchema().dump(employee)` writes. */
  datatype EmployeeDump = EmployeeDump(
    id: int,
    firstName: string,
    lastName: string,
    position: Option<string>,
    email: Option<string>,
    phone: Option<string>,
    role: Option<string>,
    password: string,
    fullName: string,
    isBusy: bool)

  function DumpEmployee(st: Store, id: int): (d: EmployeeDump)
    requires id in st.employees
    ensures var e := st.employees[id];
      && d.id == id && d.firstName == e.firstName && d.lastName == e.lastName
      && d.position == e.position && d.email == e.email && d.phone == e.phone
      && d.role == e.role && d.password == e.password
      && d.fullName == e.firstName + " " + e.lastName
      && (d.isBusy <==> exists k :: BusyBy(st, id, k))
  {
    var e := st.employees[id];
    EmployeeDump(id, e.firstName, e.lastName, e.position, e.email, e.phone, e.role, e.password,
                 e.firstName + " " + e.lastName, IsBusy(st, id))
  }

  // ------------------------------------------------------------------ lemmas

  lemma CompletedNameIsLower()
    ensures Lower(CompletedName) == CompletedName
  {
    assert forall i :: 0 <= i < |CompletedName| ==> LowerChar(CompletedName[i]) == CompletedName[i];
  }

  /** Busy for the schema implies busy for the employee listing: a name that
      lowers to something other than "завершён" is not "завершён" itself. */
  lemma SchemaBusyImpliesListingBusy(st: Store, e: int)
    requires IsBusy(st, e)
    ensures OpenIncidentIds(st, e) != {}
  {
    var id :| BusyBy(st, e, id);
    CompletedNameIsLower();
    assert id in OpenIncidentIds(st, e);
  }

  /** "Завершён" lower-cases to the completed name. */
  lemma CapitalisedCompletedLowers()
    ensures Lower("Завершён") == CompletedName
  {
    var name := "Завершён";
    var low := Lower(name);
    assert |low| == |CompletedName|;
    assert LowerChar(name[0]) == CompletedName[0];
    forall i | 1 <= i < |name|
      ensures low[i] == CompletedName[i]
    {
      assert LowerChar(name[i]) == name[i];
    }
  }

  /** The converse fails: an incident whose status is spelled "Завершён"
      (capital З) keeps its assignee busy in the listing's exact-name join but
      not in the schema dump. */
  lemma ListingBusyButSchemaIdle(st: Store, e: int, id: int)
    requires id in st.incidents && st.incidents[id].assignedId == Some(e)
    requires st.incidents[id].statusId in st.statuses
    requires st.statuses[st.incidents[id].statusId].name == "Завершён"
    ensures id in OpenIncidentIds(st, e)
    ensures !BusyBy(st, e, id)
  {
    CapitalisedCompletedLowers();
  }

  /** An assigned incident whose status row is missing never makes anyone busy. */
  lemma MissingStatusNeverBusy(st: Store, e: int, id: int)
    requires id in st.incidents && st.incidents[id].statusId !in st.statuses
    ensures !BusyBy(st, e, id)
  {
  }
}
