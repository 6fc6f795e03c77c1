/** The database queries the routes run, as functions of the store: the
    `ORDER BY incident_datetime DESC` listings, the open-incident join shared by
    the busy flag and the deletion cascade, and the status lookup by name. */
module Queries {
  import opened Base
  import opened Models

  /** The occurrence time of an incident; NULL for an id with no row. */
  function DateOf(incs: map<int, Incident>, id: int): Option<int>
  {
    if id in incs then incs[id].occurredAt else None
  }

  /** Whether `a` may come before `b` under `ORDER BY ... DESC`, where NULL
      sorts after every time (SQLite's placement of NULLs). */
  predicate LaterOrSame(a: Option<int>, b: Option<int>)
  {
    b.None? || (a.Some? && a.value >= b.value)
  }

  predicate NewestFirst(ids: seq<int>, incs: map<int, Incident>)
  {
    forall i, j :: 0 <= i < j < |ids| ==> LaterOrSame(DateOf(incs, ids[i]), DateOf(incs, ids[j]))
  }

  /** Inserts `x` into a newest-first list, in front of the first row that is
      no later than it. */
  function InsertNewest(x: int, xs: seq<int>, incs: map<int, Incident>): (r: seq<int>)
    requires NewestFirst(xs, incs)
    ensures NewestFirst(r, incs)
    ensures forall y :: y in r <==> y == x || y in xs
    ensures |r| == |xs| + 1
    ensures x !in xs && NoDup(xs) ==> NoDup(r)
  {
    if xs == [] then [x]
    else if LaterOrSame(DateOf(incs, x), DateOf(incs, xs[0])) then [x] + xs
    else
      var rest := InsertNewest(x, xs[1..], incs);
      assert forall j :: 0 <= j < |rest| ==> LaterOrSame(DateOf(incs, xs[0]), DateOf(incs, rest[j])) by {
        forall j | 0 <= j < |rest|
          ensures LaterOrSame(DateOf(incs, xs[0]), DateOf(incs, rest[j]))
        {
          assert rest[j] in rest;
          if rest[j] != x {
            assert rest[j] in xs[1..];
            var k :| 0 <= k < |xs[1..]| && xs[1..][k] == rest[j];
            assert xs[k + 1] == rest[j];
          }
        }
      }
      assert x !in xs && NoDup(xs) ==> xs[0] !in rest by {
        if x !in xs && NoDup(xs) {
          assert xs[0] != x;
          assert xs[0] !in xs[1..];
        }
      }
      [xs[0]] + rest
  }

  /** Insertion sort into newest-first order; among rows with the same time
      the earlier position in `ids` comes first. */
  function SortNewestFirst(ids: seq<int>, incs: map<int, Incident>): (r: seq<int>)
    ensures NewestFirst(r, incs)
    ensures forall y :: y in r <==> y in ids
    ensures |r| == |ids|
    ensures NoDup(ids) ==> NoDup(r)
  {
    if ids == [] then []
    else
      var rest := SortNewestFirst(ids[1..], incs);
      assert NoDup(ids) ==> ids[0] !in ids[1..];
      InsertNewest(ids[0], rest, incs)
  }

  /** The rows whose ids are in `s`, ordered by `incident_datetime DESC`, every
      row exactly once. */
  function ListNewestFirst(incs: map<int, Incident>, s: set<int>): (r: seq<int>)
    ensures NoDup(r)
    ensures forall y :: y in r <==> y in s
    ensures NewestFirst(r, incs)
  {
    SortNewestFirst(SortedKeys(s), incs)
  }

  /** The incidents assigned to `e` that the join on `incident_statuses`
      keeps and whose status name is not "завершён". */
  function OpenIncidentIds(st: Store, e: int): set<int>
  {
    set id | id in st.incidents && st.incidents[id].assignedId == Some(e) && IsOpen(st, st.incidents[id])
  }

  /** `.first()` of the busy query: the open incident of `e` with the smallest id. */
  function FirstOpenIncident(st: Store, e: int): (r: Option<int>)
    ensures r.None? <==> OpenIncidentIds(st, e) == {}
    ensures r.Some? ==> r.value in OpenIncidentIds(st, e)
    ensures r.Some? ==> forall k :: k in OpenIncidentIds(st, e) ==> r.value <= k
  {
    var ids := SortedKeys(OpenIncidentIds(st, e));
    if ids == [] then None else Some(ids[0])
  }

  /** `IncidentStatus.query.filter_by(name='завершён').first()`. */
  function CompletedStatusId(st: Store): (r: Option<int>)
    ensures r.None? <==> forall k :: k in st.statuses ==> st.statuses[k].name != CompletedName
    ensures r.Some? ==> r.value in st.statuses && st.statuses[r.value].name == CompletedName
  {
    var named := set k | k in st.statuses && st.statuses[k].name == CompletedName;
    var ids := SortedKeys(named);
    if ids == [] then
      assert forall k :: k in st.statuses ==> k !in named;
      None
    else
      assert ids[0] in named;
      Some(ids[0])
  }
}
