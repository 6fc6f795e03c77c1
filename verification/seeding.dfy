/** The start-up seeding of back/app.py: the administrator account and the
    three default locations, each added only when it is missing. */
module Seeding {
  import opened Base
  import opened Models
  import opened Schemas
  import opened Access
  import opened Employees

  const AdminEmail: string := "admin@airport.com"
  const AdminPassword: string := "Pa$$w0rd!"

  /** The administrator row; `hash` is the password hasher. */
  function AdminRow(hash: string -> string): Employee
  {
    Employee("Админ", "Системы", Some(""), Some(AdminEmail), Some("0000000000"),
             Some(AdminRole), hash(AdminPassword))
  }

  /** `create_admin`: adds the administrator unless some employee already
      uses its email; nothing else in the store changes. */
  function CreateAdmin(st: Store, hash: string -> string): (st': Store)
    ensures EmailTaken(st, JStr(AdminEmail)) ==> st' == st
    ensures !EmailTaken(st, JStr(AdminEmail)) ==>
      var id := NextId(st.employees);
      && id !in st.employees
      && st' == st.(employees := st.employees[id := AdminRow(hash)])
      && AdminRequired(st', id)
    ensures EmailTaken(st', JStr(AdminEmail))
    ensures EmailsUnique(st.employees) ==> EmailsUnique(st'.employees)
  {
    if EmailTaken(st, JStr(AdminEmail)) then st
    else
      var id := NextId(st.employees);
      var st' := st.(employees := st.employees[id := AdminRow(hash)]);
      assert st'.employees[id].email == Some(AdminEmail);
      st'
  }

  /** A second start-up adds no second administrator. */
  lemma CreateAdminIdempotent(st: Store, hash: string -> string)
    ensures CreateAdmin(CreateAdmin(st, hash), hash) == CreateAdmin(st, hash)
  {
  }

  /** The default locations, numbered from 1 in an empty table. */
  const DefaultLocations: map<int, Location> := map[
    1 := Location("Терминал A", Some("пассажирская зона")),
    2 := Location("Грузовой отсек", Some("техническая зона")),
    3 := Location("Зона контроля", Some("безопасность"))]

  /** `create_locations`: fills an empty location table with the defaults and
      leaves a table that holds any location alone. */
  function CreateLocations(st: Store): (st': Store)
    ensures st.locations != map[] ==> st' == st
    ensures st.locations == map[] ==>
      && st'.locations.Keys == {1, 2, 3}
      && st' == st.(locations := DefaultLocations)
    ensures st'.locations != map[]
  {
    if st.locations != map[] then st
    else
      assert 1 in DefaultLocations;
      st.(locations := DefaultLocations)
  }

  /** Seeding the locations again changes nothing. */
  lemma CreateLocationsIdempotent(st: Store)
    ensures CreateLocations(CreateLocations(st)) == CreateLocations(st)
  {
  }
}
