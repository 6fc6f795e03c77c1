/** The tables of the incident tracker and the record shapes of their rows.
    Every table is a map from primary key to row. A NOT NULL column is a plain
    field; a nullable one is an `Option`. Timestamps are readings of an
    abstract clock (`int`). */
module Models {
  import opened Base

  /** The status name the routes treat as finished ("completed"). */
  const CompletedName: string := "завершён"
  /** The second terminal name `assign_incident` recognises ("closed"). */
  const ClosedName: string := "закрыт"
  const AdminRole: string := "admin"
  const UserRole: string := "user"
  /** The status id a new incident receives. */
  const NewStatusId: int := 1

  datatype Employee = Employee(
    firstName: string,
    lastName: string,
    position: Option<string>,
    email: Option<string>,
    phone: Option<string>,
    role: Option<string>,
    password: string)  // the stored password hash

  datatype Location = Location(locationName: string, locationType: Option<string>)

  datatype IncidentStatus = IncidentStatus(name: string, description: Option<string>)

  datatype Incident = Incident(
    title: string,
    description: Option<string>,
    incidentType: string,
    occurredAt: Option<int>,          // incident_datetime
    locationId: Option<int>,
    assignedId: Option<int>,          // assigned_employee_id
    statusId: int,
    conclusion: Option<string>,
    createdAt: int,
    updatedAt: int)

  /** Child rows of an incident; the NOT NULL `incident_id` is a plain int. */
  datatype IncidentResponse = IncidentResponse(
    incidentId: int, actionTaken: string, performedById: Option<int>, respondedAt: int)
  datatype IncidentSource = IncidentSource(
    incidentId: int, sourceType: Option<string>, sourceDescription: Option<string>)
  datatype Attachment = Attachment(incidentId: int, fileUrl: string, uploadedAt: int)

  datatype Store = Store(
    employees: map<int, Employee>,
    locations: map<int, Location>,
    statuses: map<int, IncidentStatus>,
    incidents: map<int, Incident>,
    responses: map<int, IncidentResponse>,
    sources: map<int, IncidentSource>,
    attachments: map<int, Attachment>)

  /** The NOT NULL foreign keys of the child tables: every response, source and
      attachment belongs to an existing incident. */
  predicate ChildrenAttached(st: Store)
  {
    && (forall k :: k in st.responses ==> st.responses[k].incidentId in st.incidents)
    && (forall k :: k in st.sources ==> st.sources[k].incidentId in st.incidents)
    && (forall k :: k in st.attachments ==> st.attachments[k].incidentId in st.incidents)
  }

  /** Whether some child row belongs to incident `id`. */
  predicate HasChildren(st: Store, id: int)
  {
    || (exists k :: k in st.responses && st.responses[k].incidentId == id)
    || (exists k :: k in st.sources && st.sources[k].incidentId == id)
    || (exists k :: k in st.attachments && st.attachments[k].incidentId == id)
  }

  /** The UNIQUE constraint on `employees.email` (NULLs never collide). */
  ghost predicate EmailsUnique(employees: map<int, Employee>)
  {
    forall a, b :: a in employees && b in employees && a != b && employees[a].email.Some? ==>
      employees[a].email != employees[b].email
  }

  /** Whether some employee other than `except` already uses `email`: the
      condition under which a commit violates the UNIQUE constraint. */
  predicate EmailUsedByOther(employees: map<int, Employee>, except: Option<int>, email: Option<string>)
  {
    email.Some? && exists k :: k in employees && Some(k) != except && employees[k].email == email
  }

  /** Writing row `e` under key `id` keeps emails unique when no other row
      already uses its email. */
  lemma PutKeepsEmailsUnique(employees: map<int, Employee>, id: int, e: Employee)
    requires !EmailUsedByOther(employees, Some(id), e.email)
    ensures EmailsUnique(employees) ==> EmailsUnique(employees[id := e])
  {
  }

  /** Whether the incident's status row exists and is not named "завершён":
      the inner join plus name filter of the busy and cascade queries. */
  predicate IsOpen(st: Store, inc: Incident)
  {
    inc.statusId in st.statuses && st.statuses[inc.statusId].name != CompletedName
  }

  /** The row written back after a change: the clock stamps `updated_at` only
      when some column actually changed (the ORM issues no UPDATE otherwise). */
  function Stamp(before: Incident, after: Incident, now: int): (r: Incident)
    requires after.updatedAt == before.updatedAt
    ensures r == before <==> after == before
    ensures r.(updatedAt := after.updatedAt) == after
    ensures after != before ==> r.updatedAt == now
  {
    if after == before then before else after.(updatedAt := now)
  }

  /** The nested objects of `Incident.to_dict`. */
  datatype LocationRef = LocationRef(id: int, locationName: string)
  datatype StatusRef = StatusRef(id: int, name: string)
  datatype EmployeeRef = EmployeeRef(id: int, firstName: string, lastName: string, email: Option<string>)

  datatype IncidentDict = IncidentDict(
    id: int,
    title: string,
    description: Option<string>,
    incidentType: string,
    incidentDatetime: Option<int>,
    location: Option<LocationRef>,
    status: Option<StatusRef>,
    assignedEmployee: Option<EmployeeRef>,
    conclusion: Option<string>,
    createdAt: Option<int>,
    updatedAt: Option<int>)

  /** `Incident.to_dict`: each reference is expanded when the row it points to
      exists and is null otherwise. */
  function ToDict(st: Store, id: int): (d: IncidentDict)
    requires id in st.incidents
    ensures var inc := st.incidents[id];
      && d.id == id && d.title == inc.title && d.incidentType == inc.incidentType
      && d.description == inc.description && d.conclusion == inc.conclusion
      && d.incidentDatetime == inc.occurredAt
      && d.createdAt == Some(inc.createdAt) && d.updatedAt == Some(inc.updatedAt)
      && (d.location.None? <==> (inc.locationId.None? || inc.locationId.value !in st.locations))
      && (d.location.Some? ==>
            d.location.value == LocationRef(inc.locationId.value, st.locations[inc.locationId.value].locationName))
      && (d.status.None? <==> inc.statusId !in st.statuses)
      && (d.status.Some? ==> d.status.value == StatusRef(inc.statusId, st.statuses[inc.statusId].name))
      && (d.assignedEmployee.None? <==> (inc.assignedId.None? || inc.assignedId.value !in st.employees))
      && (d.assignedEmployee.Some? ==>
            var e := st.employees[inc.assignedId.value];
            d.assignedEmployee.value == EmployeeRef(inc.assignedId.value, e.firstName, e.lastName, e.email))
  {
    var inc := st.incidents[id];
    IncidentDict(
      id, inc.title, inc.description, inc.incidentType, inc.occurredAt,
      if inc.locationId.Some? && inc.locationId.value in st.locations
      then Some(LocationRef(inc.locationId.value, st.locations[inc.locationId.value].locationName))
      else None,
      if inc.statusId in st.statuses
      then Some(StatusRef(inc.statusId, st.statuses[inc.statusId].name))
      else None,
      if inc.assignedId.Some? && inc.assignedId.value in st.employees
      then
        var e := st.employees[inc.assignedId.value];
        Some(EmployeeRef(inc.assignedId.value, e.firstName, e.lastName, e.email))
      else None,
      inc.conclusion, Some(inc.createdAt), Some(inc.updatedAt))
  }
}
