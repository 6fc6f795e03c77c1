/** What every route shares: the answer shape of a state-changing handler and
    the `admin_required` decorator, defined identically in the incident and
    employee route files. */
module Access {
  import opened Base
  import opened Models

  /** The answer of a state-changing handler together with the store after its
      single commit; on every failure the store is the one it started from. */
  datatype Handled<+T> = Handled(result: Result<T>, store: Store)

  /** `admin_required`: the caller's row exists and its role is "admin". A NULL
      role fails the check like any other role. */
  predicate AdminRequired(st: Store, caller: int)
  {
    caller in st.employees && st.employees[caller].role == Some(AdminRole)
  }

  /** Only incident `id` differs between the two stores (it may be new). */
  predicate OnlyIncidentChanged(st: Store, st': Store, id: int)
  {
    id in st'.incidents && st' == st.(incidents := st.incidents[id := st'.incidents[id]])
  }
}
