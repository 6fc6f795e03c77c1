/** Shared vocabulary of the model: optional values, the failure tags the route
    handlers answer with, and the deterministic orderings used for queries that
    the application runs without an ORDER BY. */
module Base {

  /** A nullable value: a NULL column or an absent JSON key is `None`. */
  datatype Option<+T> = None | Some(value: T)

  /** The error answers of the route handlers, one tag per HTTP error status:
      400, 401, 403, 404 and 500 respectively. */
  datatype Failure = BadRequest | Unauthorized | Forbidden | NotFound | ServerError

  /** What a handler answers: a success payload or a failure tag. */
  datatype Result<+T> = Ok(value: T) | Fail(failure: Failure)

  predicate NoDup<T(==)>(s: seq<T>)
  {
    forall i, j :: 0 <= i < j < |s| ==> s[i] != s[j]
  }

  predicate Ascending(s: seq<int>)
  {
    forall i, j :: 0 <= i < j < |s| ==> s[i] < s[j]
  }

  /** Every non-empty finite set of integers has a least element. */
  lemma MinExists(s: set<int>)
    requires s != {}
    ensures exists m :: m in s && forall x :: x in s ==> m <= x
  {
    var m := LeastOf(s);
  }

  /** The least element of a non-empty set, found by removing one element and
      comparing it with the least of the rest. */
  lemma {:induction false} LeastOf(s: set<int>) returns (m: int)
    requires s != {}
    ensures m in s && forall x :: x in s ==> m <= x
    decreases s
  {
    var x := PickOne(s);
    var t := s - {x};
    if t == {} {
      m := x;
      forall z | z in s
        ensures m <= z
      {
        assert z !in t;
      }
    } else {
      assert x !in t;
      var y := LeastOf(t);
      m := if x < y then x else y;
      forall z | z in s
        ensures m <= z
      {
        if z != x {
          assert z in t;
        }
      }
    }
  }

  /** Some element of a non-empty set. */
  lemma PickOne(s: set<int>) returns (x: int)
    requires s != {}
    ensures x in s
  {
    if forall a :: a !in s {
      assert false;
    }
    var a :| a in s;
    x := a;
  }

  /** The elements of a finite set of ids, in ascending order: the order in which
      the model lists rows of a query that the source runs without ORDER BY. */
  function SortedKeys(s: set<int>): (r: seq<int>)
    ensures Ascending(r)
    ensures forall x :: x in r <==> x in s
    ensures |r| == |s|
    decreases s
  {
    if s == {} then []
    else
      MinExists(s);
      var m :| m in s && forall x :: x in s ==> m <= x;
      var rest := SortedKeys(s - {m});
      SortedConsStep(m, s, rest);
      [m] + rest
  }

  /** Putting the least element in front of the sorted rest sorts the whole set. */
  lemma SortedConsStep(m: int, s: set<int>, rest: seq<int>)
    requires m in s && forall x :: x in s ==> m <= x
    requires Ascending(rest) && |rest| == |s - {m}|
    requires forall x :: x in rest <==> x in s - {m}
    ensures Ascending([m] + rest)
    ensures forall x :: x in [m] + rest <==> x in s
    ensures |[m] + rest| == |s|
  {
    assert forall j :: 0 <= j < |rest| ==> m < rest[j] by {
      forall j | 0 <= j < |rest| ensures m < rest[j] {
        assert rest[j] in rest;
      }
    }
  }

  /** The primary key the database gives the next inserted row: one more than
      the largest key in use, or 1 for an empty table (SQLite rowid behaviour). */
  function NextId<T>(m: map<int, T>): (r: int)
    ensures r !in m
    ensures forall k :: k in m ==> k < r
    ensures m == map[] ==> r == 1
  {
    var ks := SortedKeys(m.Keys);
    if ks == [] then 1
    else
      assert forall k :: k in m ==> k <= ks[|ks| - 1] by {
        forall k | k in m ensures k <= ks[|ks| - 1] {
          var i :| 0 <= i < |ks| && ks[i] == k;
        }
      }
      ks[|ks| - 1] + 1
  }
}
