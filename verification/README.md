# Airport incident tracker: a Dafny model of the back end

This project models the Flask back end of an airport incident tracker.
Employees report incidents. Administrators assign incidents to employees, and
the assignee marks an incident completed. When an employee is deleted, that
employee's open incidents are handed to other employees. The model covers:

- the records of `back/models.py`;
- the load and dump rules of `back/schemas/incident_schema.py`;
- the incident routes, the employee routes with the deletion cascade, and the
  authentication routes;
- the start-up seeding in `back/app.py`.

Each route handler is a pure function. It takes the store (one map per table)
and returns the answer together with the store after its single commit. Every
error path returns the store it was given. The caller's identity is the
employee id carried by the access token, passed as an `int`.

Modules, in dependency order:

- `Base`: optional values, failure tags, and the ascending-id order used for
  queries without ORDER BY.
- `Text`: Python's `str.lower`, `str(int)` and `int(str)`.
- `Models`: the tables and their constraints.
- `Queries`: the newest-first listings, the open-incident join and the status
  lookup by name.
- `Schemas`: marshmallow load and dump.
- `Access`: the handler answer shape and `admin_required`.
- `Incidents`, `Employees`, `Auth`, `Seeding`: the routes.
- `Invariants`: table constraints that every route keeps.

Three different rules decide whether an incident still counts as open:

- The employee listing and the deletion cascade join on the status row and
  compare its name exactly with "завершён" (`Models.IsOpen`).
- The schema's `is_busy` compares the lower-cased name (`Schemas.BusyBy`).
- `assign_incident` refuses when the lower-cased name is "закрыт" or
  "завершён" (`Incidents.TerminalForAssign`).

The model keeps all three. `Schemas.ListingBusyButSchemaIdle` shows where the
first two disagree.

## Model

| member | source | states |
|---|---|---|
| `Models.Stamp` | back/models.py:59 | `updated_at` moves to the current time exactly when some column changed; the row is returned unchanged otherwise |
| `Models.ToDict` | back/models.py:66-90 | the scalar columns and both timestamps are copied from the row; `location`, `status` and `assigned_employee` are null exactly when the referenced row is absent, and otherwise carry that row's id with its `location_name`, its `name`, or its `first_name`, `last_name` and `email` |
| `Text.IdentityRoundTrip` | back/routes/auth.py:45-59 | for every id, `int(str(id)) == id`, so the identity written at login reads back as the same id in `profile` |
| `Text.Lower` | back/routes/incidents.py:118 | lower-casing keeps the length and maps each character by Python's rule for Latin and basic Cyrillic |
| `Queries.ListNewestFirst` | back/routes/incidents.py:30 | the listing holds each selected incident exactly once, ordered by `incident_datetime` descending, with NULL last |
| `Queries.FirstOpenIncident` | back/routes/employees.py:34-40 | the query's first row is absent exactly when the employee has no open incident, and otherwise is the employee's open incident with the smallest id |
| `Queries.CompletedStatusId` | back/routes/incidents.py:154 | the lookup is absent exactly when no status is named "завершён"; a found id names such a status |
| `Schemas.LoadIncident` | back/schemas/incident_schema.py:70-84 | a load succeeds exactly when all keys are loadable, `title` and `incident_type` are present on a full load, and every value fits its column, where an Integer field also takes a string that `int()` accepts and, as the commit demands, a value within the signed 64-bit range; a dump-only key (`id`, `created_at`, `updated_at`, nested objects) always fails it; a present key sets its column and an absent one keeps the old value; timestamps are never taken from input |
| `Schemas.NumericTextLoadsAsInteger` | back/schemas/incident_schema.py:82-84 | sending `location_id`, `status_id` or `assigned_employee_id` as the text `str(n)` gives the same verdict and the same row as sending the number `n` |
| `Schemas.LoadEmployee` | back/schemas/incident_schema.py:8-16 | the same rules for employees: `first_name`, `last_name` and `password` are required on a full load; the length limits of back/models.py:8-14 apply; `full_name` and `is_busy` are refused |
| `Schemas.AnyBusy` | back/schemas/incident_schema.py:23-26 | `any(...)` over a list of incidents is true exactly when one of them keeps the employee busy |
| `Schemas.IsBusy` | back/schemas/incident_schema.py:21-26 | `is_busy` is true exactly when some incident assigned to the employee has a status row whose lower-cased name is not "завершён" |
| `Schemas.DumpEmployee` | back/schemas/incident_schema.py:15-26 | every column of the row is copied; `full_name` is `first_name + " " + last_name`; `is_busy` follows the schema's busy rule |
| `Schemas.SchemaBusyImpliesListingBusy` | back/schemas/incident_schema.py:24 | an employee busy for the schema also has an open incident for the listing's exact-name join |
| `Schemas.ListingBusyButSchemaIdle` | back/routes/employees.py:33-40 | an incident whose status is spelled "Завершён" counts as open for the listing and the cascade, yet does not make its assignee busy in the schema dump |
| `Schemas.MissingStatusNeverBusy` | back/schemas/incident_schema.py:24 | an assigned incident without a status row never makes its assignee busy |
| `Access.AdminRequired` | back/routes/incidents.py:15-24 | the caller passes exactly when its row exists and its role is "admin"; a missing row or a NULL role fails |
| `Invariants.AdminGuardIncidents` | back/routes/incidents.py:15-24 | every incident route behind `admin_required` answers 403 with the store untouched exactly when the caller fails the check, and for no other reason |
| `Invariants.AdminGuardEmployees` | back/routes/employees.py:14-23 | the same for every employee route behind `admin_required` |
| `Incidents.GetAllIncidents` | back/routes/incidents.py:27-31 | non-admins get 403; admins get every incident exactly once, newest first |
| `Incidents.GetMyIncidents` | back/routes/incidents.py:131-141 | 404 when the caller's row is gone; otherwise exactly the incidents assigned to the caller, each once, newest first |
| `Incidents.CreateIncident` | back/routes/incidents.py:41-67 | non-admins get 403, and nobody else does; the incident is created exactly when the payload, with `status_id` forced to 1, loads; the new row is the loaded row, with status 1 whatever the payload said and the current time when `incident_datetime` is null or absent, so title, type, description, location, assignee and conclusion come from the payload; and nothing else in the store changes (no employee is touched) |
| `Incidents.UpdateIncident` | back/routes/incidents.py:82-96 | 403 for non-admins and for no other reason, 404 for an unknown id, 400 exactly when the partial load fails; otherwise only this incident changes, to the loaded row, with no status guard |
| `Incidents.DeleteIncident` | back/routes/incidents.py:99-105 | 403 for non-admins and for no other reason, then 404; a commit that would blank the NOT NULL `incident_id` of a child row fails with 500; otherwise exactly this incident row is removed; child rows stay attached to existing incidents |
| `Incidents.AssignIncident` | back/routes/incidents.py:108-128 | guards in order: 403 for non-admins, 404 for an unknown incident or employee, "already assigned" with no change, 500 for a dangling status, 400 for a lower-cased status name of "закрыт" or "завершён"; otherwise only `assigned_employee_id` (and `updated_at`) of this incident changes |
| `Incidents.TerminalForAssign` | back/routes/incidents.py:117-120 | the status check runs only for a non-zero `status_id` and refuses exactly the statuses whose lower-cased name is "закрыт" or "завершён" |
| `Incidents.AssignTwice` | back/routes/incidents.py:114-115 | assigning the same pair again answers "already assigned" and changes nothing |
| `Incidents.AssignCompletedToCurrentAssignee` | back/routes/incidents.py:114-120 | the already-assigned answer precedes the status check, so it is given even for a completed incident |
| `Incidents.AssignTerminalRejected` | back/routes/incidents.py:117-120 | an incident whose status is "закрыт" or "завершён" cannot be handed to another employee: 400, store unchanged |
| `Incidents.UpdateCompletedAllowed` | back/routes/incidents.py:84-96 | an edit of a completed incident succeeds and can move it to any status id in the signed 64-bit range |
| `Incidents.CompleteIncident` | back/routes/incidents.py:143-161 | 404 exactly for an unknown incident; 403 for anyone but the assignee; 500 exactly when no status is named "завершён"; otherwise only `status_id` (and `updated_at`) of this incident changes, to the "завершён" status |
| `Incidents.CompleteTwice` | back/routes/incidents.py:154-161 | completing again succeeds and leaves the store as the first completion left it |
| `Incidents.CompleteAsWritten` | back/routes/incidents.py:145-151 | the handler as written, comparing the integer assignee with the string identity: 404 exactly for an unknown incident, no change on failure |
| `Incidents.CompleteAsWrittenAlwaysForbidden` | back/routes/incidents.py:150-151 | as written, every caller of an existing incident gets 403, the assignee included |
| `Incidents.CompleteIdentityWitness` | back/routes/incidents.py:146-151 | employee 5 with identity "5" is refused by the handler as written and accepted by the id-comparing handler |
| `Incidents.AssigneeCanComplete` | back/routes/incidents.py:150-159 | with the identity read back through `int(...)`, the assignee completes the incident whenever the "завершён" status exists |
| `Employees.ListingRow` | back/routes/employees.py:42-53 | an entry's `name` is first and last name, and its `email` and `role` are the row's; `is_busy` holds exactly when the employee has an open incident; `assigned_incident` is present exactly when busy and describes one of those open incidents |
| `Employees.ListingRows` | back/routes/employees.py:32-53 | one faithful entry per id, in the given order |
| `Employees.EmployeeListing` | back/routes/employees.py:29-55 | every employee appears, in strictly increasing id order (so exactly once), and every entry is faithful |
| `Employees.GetAllEmployees` | back/routes/employees.py:26-28 | non-admins get 403; admins get the listing: every employee exactly once, in id order, each entry faithful |
| `Employees.GetEmployee` | back/routes/employees.py:58-66 | a caller whose row is gone gets 500; a non-admin asking for someone else gets 403; otherwise 404, or the schema dump of the requested employee with its `full_name` and `is_busy` |
| `Employees.CreateEmployee` | back/routes/employees.py:69-87 | 403 for non-admins and for no other reason; a taken email gives 400 before a missing password gives 400; a password that is not a string fails unhandled; otherwise the employee is created exactly when the payload, with the role defaulted to "user" and the password hashed, loads; the new row is that loaded row, so names, position, phone and email come from the payload; only the new row is added; the answer is its dump; emails stay unique |
| `Employees.CreatedRow` | back/routes/employees.py:76-82 | a successful create load takes first and last name, position, phone and email from the payload, the role from the payload or "user", and the hash of the supplied password |
| `Employees.UpdateEmployee` | back/routes/employees.py:90-102 | 403 for non-admins and for no other reason, then 404; a password that is not a string fails unhandled; otherwise the update succeeds exactly when the partial load succeeds and no other employee has the loaded email; only this employee's row changes, to the loaded row: a present key sets its column and an absent one keeps it, a supplied password is stored hashed; the answer is its dump; emails stay unique |
| `Employees.OpenIncidents` | back/routes/employees.py:109-115 | the incidents the cascade visits are exactly the employee's open incidents, each once, in id order |
| `Employees.ReassignmentPool` | back/routes/employees.py:123-126 | the pool is exactly the employees other than the deleted one whose role is "user", in id order, whether busy or not |
| `Employees.Reassign` | back/routes/employees.py:131-137 | the loop keeps the set of incident rows |
| `Employees.DeleteEmployee` | back/routes/employees.py:104-142 | the handler with the loop's writes kept (the intended behaviour; see the back/routes/employees.py:136 finding): 403 for non-admins and for no other reason, then 404; the employee row is removed and no other table but incidents changes; with no open incidents nothing else changes and the answer is "Сотрудник удалён"; otherwise the answer is "Сотрудник удалён, инциденты переназначены" |
| `Employees.ReassignMatchesTargetFor` | back/routes/employees.py:131-137 | the pop-front loop gives the k-th visited incident to the k-th pool member while the pool lasts and to the requester after that; incidents it does not visit are unchanged |
| `Employees.RequesterShare` | back/routes/employees.py:131-136 | of n open incidents, the requester receives max(0, n - pool size) |
| `Employees.PoolMemberShare` | back/routes/employees.py:131-136 | each pool member receives exactly one incident if the cascade reaches its position, and none otherwise |
| `Employees.DeleteCascade` | back/routes/employees.py:106-142 | after deletion the employee row is gone; the k-th open incident goes to `TargetFor(k)`; completed and unrelated incidents are untouched; unless the requester deleted themself, no open incident points at the deleted employee |
| `Employees.SelfDeleteLeavesDanglingAssignee` | back/routes/employees.py:128-139 | an admin who deletes themself with no "user" employee left gets their open incidents back, still pointing at the deleted row |
| `Employees.BlankAssignees` | back/models.py:16-21 | on delete, every incident that was assigned to the deleted employee when it was loaded becomes the loop's row with a NULL assignee, its `updated_at` moved to the commit time when that changes it; every other incident is kept as the loop left it |
| `Employees.CommittedIncidents` | back/routes/employees.py:131-139 | after an admin deletes an employee, the flush's blanking of the rows the loop wrote gives the same incidents as blanking the rows the employee held before the loop: NULL assignee and `updated_at` set to the commit time for each, every other incident unchanged |
| `Employees.DeleteEmployeeAsCommitted` | back/routes/employees.py:104-142 | the handler as committed: the same answers as `DeleteEmployee`; on success the committed store is the old store without the employee, with every incident the employee held, reassigned or not, given a NULL assignee and `updated_at` set to the commit time (`Unassigned`), and nothing else changed, so the reassignment loop has no effect |
| `Employees.CommitDropsReassignment` | back/routes/employees.py:131-140 | whenever the deleted employee holds an open incident, the loop hands the first one to `TargetFor(0)` and the committed store leaves it unassigned |
| `Auth.Register` | back/routes/auth.py:11-30 | a missing email key gives 500; a taken email gives 400 and adds nothing; otherwise the user is added exactly when the fields are usable; first name, last name, email and phone come from the payload; the role is always "user", the position always "Сотрудник", and the password the hash of the supplied one; emails stay unique |
| `Auth.RegisterTwice` | back/routes/auth.py:14-15 | registering the same payload again is refused with 400 and adds nothing |
| `Auth.FindByEmail` | back/routes/auth.py:40 | the lookup finds nothing exactly when no employee has that email, and otherwise finds one that has it |
| `Auth.Login` | back/routes/auth.py:35-50 | an unknown email gives 401; for a known email, a password that is not a string fails unhandled (500), a password the check accepts logs in as the first employee with that email, and any other gets the same 401; on success the token is issued for `str(user.id)` |
| `Auth.Profile` | back/routes/auth.py:56-69 | an identity `int()` refuses gives 500; an id with no row gives 404; an id with a row always succeeds, with the caller's id, `first_name + " " + last_name`, email and role |
| `Auth.LoginThenProfile` | back/routes/auth.py:45-59 | the identity of a successful login leads `profile` back to the same employee |
| `Seeding.CreateAdmin` | back/app.py:20-34 | the administrator is added only when no employee has email "admin@airport.com"; the new row has role "admin" and passes `admin_required`; no other table changes; emails stay unique |
| `Seeding.CreateAdminIdempotent` | back/app.py:23 | seeding twice adds at most one administrator |
| `Seeding.CreateLocations` | back/app.py:37-46 | an empty location table receives exactly the three default locations, ids 1 to 3, with the names and types the source lists ("Терминал A"/"пассажирская зона", "Грузовой отсек"/"техническая зона", "Зона контроля"/"безопасность"), and a non-empty one is left alone; no other table changes |
| `Seeding.CreateLocationsIdempotent` | back/app.py:40 | seeding locations again changes nothing |
| `Invariants.CreateIncidentKeepsChildrenAttached` | back/models.py:93-115 | creating an incident leaves every response, source and attachment attached to an existing incident |
| `Invariants.UpdateIncidentKeepsChildrenAttached` | back/models.py:96 | editing an incident keeps child rows attached |
| `Invariants.AssignIncidentKeepsChildrenAttached` | back/models.py:105 | assigning keeps child rows attached |
| `Invariants.CompleteIncidentKeepsChildrenAttached` | back/models.py:113 | completing keeps child rows attached |
| `Invariants.DeleteEmployeeKeepsChildrenAttached` | back/models.py:93-115 | the deletion cascade keeps child rows attached |
| `Invariants.RoutesKeepEmailsUnique` | back/models.py:11 | creating, updating, registering and seeding employees keep emails unique |

## Left out

- HTTP plumbing is not modelled: routing, CORS, the OPTIONS preflight
  (back/routes/incidents.py:70-79), logging, and `profile_debug`
  (back/routes/auth.py:73-83). Answers are reduced to a failure tag or a
  result value, and response bodies beyond the fields above are not modelled.
- Token signing and checking and password hashing are library code. `hash`,
  `verify` and `issue` are function parameters. A missing or invalid token is
  rejected before any handler runs and is not modelled.
- `get_incident` (back/routes/incidents.py:34-38) is not modelled. It is a
  read-only lookup outside the assignment lifecycle.
- The nested `IncidentSchema` dump is not modelled. Routes answer with the
  incident id or row.
- `get_busy` (back/routes/employees.py:144-148) is not modelled. It queries an
  `is_busy` column that the `Employee` model does not have.
- back/routes/locations.py and back/routes/incident_statuses.py are not part
  of this model. They are list-all endpoints.
- The ORM's delete rule for one-to-many relationships blanks, when a parent
  row is deleted, the foreign key of every child in the parent's loaded
  collection. For the NOT NULL `incident_id` of responses, sources and
  attachments this makes `Incidents.DeleteIncident` fail with 500. For the
  incidents of a deleted employee it undoes the reassignment; this is the
  second row under "## Findings". `Employees.DeleteEmployee` and
  `Employees.DeleteCascade` describe the writes of the reassignment loop
  (back/routes/employees.py:131-137), that is, the intended behaviour. In
  that model the deleted employee's completed incidents keep the deleted id,
  as do the incidents of `Employees.SelfDeleteLeavesDanglingAssignee`. The blanking of
  `performed_by_id` in the responses of a deleted employee is not modelled.
- The database engine is assumed to be SQLite. Its configuration file is not
  part of this model. Several modelled behaviours follow from that choice:
  - foreign keys to locations, statuses and employees are not checked on
    insert or update, because SQLite does not enforce them by default;
  - NULL sorts last in a descending ORDER BY;
  - a new row gets the largest id plus one (`Base.NextId`);
  - VARCHAR lengths are not enforced by the database; only the schema's
    Length checks apply, so `Auth.Register`, which bypasses the schema,
    stores a value of any length;
  - the string identity finds the integer key, through numeric affinity;
  - an integer parameter outside the signed 64-bit range makes the commit
    raise (`Schemas.IntOk`).
- Timestamps are readings of an abstract clock passed as `now`. ISO date
  strings and their parsing are not modelled.
- JSON values are null, integers and strings only. Booleans, floats, arrays
  and nested objects are not modelled. Integer fields take JSON integers and
  strings that `Text.ParseInt` accepts, as marshmallow's non-strict `Integer`
  does. A request body that is not a JSON object is not modelled.
- Queries without ORDER BY are modelled in ascending id order: the employee
  list, the reassignment pool, the open incidents, and `.first()` lookups. The
  database does not promise any order for them.
- `ORDER BY incident_datetime DESC` is modelled with NULL last, as SQLite
  orders NULLs. Ties keep ascending id order.
- Text.Lower: covers Basic Latin and basic Cyrillic (U+0400 to U+042F) only.
  Other characters are returned unchanged. The names the routes compare use
  only these letters.
- Text.ParseInt: accepts an optional sign and ASCII decimal digits only. It
  does not accept the surrounding whitespace, the digit underscores or the
  non-ASCII decimal digits (such as "٣") that Python's `int` also accepts, so
  an Integer field given such a string is refused where marshmallow loads it.
- Schemas.LoadEmployee: requires the payload to have no "id" key. The
  employee schema does not mark `id` dump-only, so with an "id" key the schema
  looks up the row with that key and loads into it, or sets the primary key of
  the new or given row. That library behaviour is not modelled.
- Employees.CreateEmployee: requires the payload to have no "id" key. With an
  "id" key, the schema loads into the existing row with that key. That library
  behaviour is not modelled.
- Employees.UpdateEmployee: requires the payload to have no "id" key, for the
  same reason.
- Auth.Register: a field of the wrong JSON type is modelled as a 500. The
  source passes the value straight to the column.
- Employees.Reassign: its own contract states only that the set of incident
  rows is kept. What each visited incident receives is stated by
  `Employees.ReassignMatchesTargetFor`.
- Incidents.CompleteAsWritten: its contract states the 404 and no-change
  cases. That every other caller gets 403 is stated by
  `Incidents.CompleteAsWrittenAlwaysForbidden`.

## Findings

| source | as written | input that shows it | evidently intended | confidence | as-written member | corrected member |
|---|---|---|---|---|---|---|
| back/routes/incidents.py:150 | the owner check compares the integer `assigned_employee_id` with the token identity, which `login` issues as the string `str(user.id)` (back/routes/auth.py:45), so they are never equal | employee 5 logs in, gets identity "5", and asks to complete incident 1, which is assigned to 5: the answer is 403 | compare with `int(get_jwt_identity())`, as `profile` does, so that the assignee can complete the incident | high, not executed | `Incidents.CompleteAsWritten` | `Incidents.CompleteIncident` |
| back/routes/employees.py:136 | the loop sets the `assigned_employee_id` column, not the `assigned_employee` relationship, so every incident stays in the deleted employee's joined-loaded `assigned_incidents` collection (back/models.py:16-21); `db.session.delete(employee)` then makes the flush blank the foreign key of every incident in that collection | admin 1 deletes employee 3, who holds open incident 4, while "user" employee 2 exists: the loop sets incident 4's assignee to 2, and the commit stores NULL | the reassigned incidents keep their new assignee, for example by setting `incident.assigned_employee = reassignee` | medium (a reading of the ORM's flush rules), not executed | `Employees.DeleteEmployeeAsCommitted` | `Employees.DeleteEmployee` |

The other handlers that look up the caller use `Employee.query.get(identity)`
with the string identity. SQLAlchemy finds no "5" key in its identity map and
issues the SELECT. SQLite applies the integer column's numeric affinity to the
text '5', so the row with id 5 matches. The model therefore passes the caller
to them as an integer id.
