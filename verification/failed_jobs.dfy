/** `FailedJobsController`: the two record transforms behind the failed-jobs page. Both
    look the row up with `Job::failed()->findOrFail($id)`, so an id that names no row, or
    names a row that is not `failed`, is a 404 and changes nothing. The HTTP responses are
    not modelled. */
module FailedJobs {
  import opened Prelude
  import opened JobModel

  datatype Outcome = NotFound | Done(table: JobTable)

  /** The position of the failed row with primary key `id`. */
  function FindFailed(rows: seq<Job>, id: int): (r: Option<nat>)
    ensures r.Some? ==> r.value < |rows| && rows[r.value].id == id && IsFailed(rows[r.value])
    ensures r.None? <==> forall j :: j in rows ==> !(j.id == id && IsFailed(j))
    decreases |rows|
  {
    if |rows| == 0 then None
    else if rows[0].id == id && IsFailed(rows[0]) then Some(0)
    else
      var r := FindFailed(rows[1..], id);
      assert forall j :: j in rows ==> j == rows[0] || j in rows[1..];
      if r.Some? then Some(r.value + 1) else None
  }

  /** The columns `retry` resets; attempts, payload, queue and both keys are kept. */
  function ResetForRetry(j: Job): Job {
    j.(status := Pending, startedAt := None, completedAt := None, exception := None)
  }

  /** `retry`: the failed row goes back to `pending` with its run timestamps and exception
      cleared; every other row is untouched. */
  function Retry(t: JobTable, id: int): (r: Outcome)
    requires WellFormed(t)
    ensures r.NotFound? <==> forall j :: j in t.rows ==> !(j.id == id && IsFailed(j))
    ensures r.NotFound? ==> FindFailed(t.rows, id).None?
    ensures r.Done? ==>
              WellFormed(r.table) && r.table.nextId == t.nextId &&
              r.table.rows == t.rows[FindFailed(t.rows, id).value :=
                                     ResetForRetry(t.rows[FindFailed(t.rows, id).value])]
    ensures r.Done? ==> forall i :: 0 <= i < |t.rows| ==>
              r.table.rows[i] == if t.rows[i].id == id then ResetForRetry(t.rows[i]) else t.rows[i]
  {
    match FindFailed(t.rows, id)
    case None => NotFound
    case Some(k) =>
      var rows := t.rows[k := ResetForRetry(t.rows[k])];
      assert forall i :: 0 <= i < |t.rows| && i != k ==> t.rows[i].id != id by {
        forall i | 0 <= i < |t.rows| && i != k ensures t.rows[i].id != id {
          if i < k { assert t.rows[i].id < t.rows[k].id; }
          else { assert t.rows[k].id < t.rows[i].id; }
        }
      }
      Done(JobTable(rows, t.nextId))
  }

  /** A retried job leaves the failed listing and joins the pending ones: the failed count
      drops by one and the pending count grows by one. */
  lemma RetryLeavesFailedListing(t: JobTable, id: int)
    requires WellFormed(t) && Retry(t, id).Done?
    ensures var r := Retry(t, id).table;
            (forall j :: j in FailedScope(r.rows) ==> j.id != id) &&
            Count(r.rows, StatusIs(Failed)) + 1 == Count(t.rows, StatusIs(Failed)) &&
            Count(r.rows, StatusIs(Pending)) == Count(t.rows, StatusIs(Pending)) + 1
  {
    var k := FindFailed(t.rows, id).value;
    var x := ResetForRetry(t.rows[k]);
    CountUpdate(t.rows, k, x, StatusIs(Failed));
    CountUpdate(t.rows, k, x, StatusIs(Pending));
  }

  /** `destroy`: delete the failed row; the other rows keep their order. */
  function Destroy(t: JobTable, id: int): (r: Outcome)
    requires WellFormed(t)
    ensures r.NotFound? <==> forall j :: j in t.rows ==> !(j.id == id && IsFailed(j))
    ensures r.NotFound? ==> FindFailed(t.rows, id).None?
    ensures r.Done? ==>
              var k := FindFailed(t.rows, id).value;
              WellFormed(r.table) && r.table.nextId == t.nextId &&
              r.table.rows == t.rows[..k] + t.rows[k + 1..]
  {
    match FindFailed(t.rows, id)
    case None => NotFound
    case Some(k) =>
      var rows := t.rows[..k] + t.rows[k + 1..];
      assert forall i :: 0 <= i < |rows| ==> rows[i] == t.rows[if i < k then i else i + 1];
      Done(JobTable(rows, t.nextId))
  }

  /** Removing position `k` lowers the count of any condition by whether row `k` met it. */
  lemma CountWithout(rows: seq<Job>, k: nat, p: Job -> bool)
    requires k < |rows|
    ensures Count(rows[..k] + rows[k + 1..], p) + (if p(rows[k]) then 1 else 0) == Count(rows, p)
  {
    assert rows == rows[..k] + [rows[k]] + rows[k + 1..];
    CountConcat(rows[..k] + [rows[k]], rows[k + 1..], p);
    CountConcat(rows[..k], [rows[k]], p);
    CountConcat(rows[..k], rows[k + 1..], p);
    CountSingleton(rows[k], p);
  }

  /** Removing position `k` of a well-formed table removes its primary key and no other row. */
  lemma WithoutRow(t: JobTable, k: nat)
    requires WellFormed(t) && k < |t.rows|
    ensures forall j :: j in t.rows[..k] + t.rows[k + 1..] ==> j.id != t.rows[k].id
    ensures forall j :: j in t.rows && j.id != t.rows[k].id ==> j in t.rows[..k] + t.rows[k + 1..]
  {
    var rows := t.rows[..k] + t.rows[k + 1..];
    forall j | j in rows ensures j.id != t.rows[k].id {
      var i :| 0 <= i < |rows| && rows[i] == j;
      if i < k {
        assert rows[i] == t.rows[i];
      } else {
        assert rows[i] == t.rows[i + 1];
      }
    }
    forall j | j in t.rows && j.id != t.rows[k].id ensures j in rows {
      var i :| 0 <= i < |t.rows| && t.rows[i] == j;
      if i < k {
        assert rows[i] == j;
      } else if i > k {
        assert rows[i - 1] == j;
      }
    }
  }

  /** `destroy` removes exactly the one failed row with that id: one row fewer, one failed
      row fewer, no row left with the id, and every other row still there. */
  lemma DestroyRemovesOne(t: JobTable, id: int)
    requires WellFormed(t) && Destroy(t, id).Done?
    ensures var r := Destroy(t, id).table;
            |r.rows| + 1 == |t.rows| &&
            Count(r.rows, StatusIs(Failed)) + 1 == Count(t.rows, StatusIs(Failed)) &&
            (forall j :: j in r.rows ==> j.id != id) &&
            (forall j :: j in t.rows && j.id != id ==> j in r.rows)
  {
    var k := FindFailed(t.rows, id).value;
    CountWithout(t.rows, k, StatusIs(Failed));
    WithoutRow(t, k);
  }
}
