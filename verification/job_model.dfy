/** The `watchtower_jobs` table: one row per observed queue job, in primary-key order.
    `job_id` carries a unique index and the auto-increment key only grows; `WellFormed`
    states both. Timestamps are integer seconds. */
module JobModel {
  import opened Prelude

  /** The four status strings the code writes. */
  datatype JobStatus = Pending | Processing | Completed | Failed

  /** A decoded JSON value; the `payload` column is cast to an array of these. */
  datatype Value = Null | Bool(b: bool) | Int(i: int) | Str(s: string) | Arr(fields: map<string, Value>)

  type Payload = map<string, Value>

  datatype Job = Job(
    id: nat,
    jobId: string,
    queue: string,
    connection: string,
    payload: Payload,
    status: JobStatus,
    workerId: Option<int>,
    attempts: int,
    exception: Option<string>,
    queuedAt: int,
    startedAt: Option<int>,
    completedAt: Option<int>)

  /** The rows and the table's auto-increment counter. */
  datatype JobTable = JobTable(rows: seq<Job>, nextId: nat)

  /** Unique `job_id`s, primary keys increasing along the rows and below the counter. */
  predicate WellFormed(t: JobTable) {
    && (forall i, j :: 0 <= i < j < |t.rows| ==> t.rows[i].jobId != t.rows[j].jobId)
    && (forall i, j :: 0 <= i < j < |t.rows| ==> t.rows[i].id < t.rows[j].id)
    && (forall i :: 0 <= i < |t.rows| ==> t.rows[i].id < t.nextId)
  }

  predicate IsPending(j: Job) { j.status == Pending }
  predicate IsProcessing(j: Job) { j.status == Processing }
  predicate IsCompleted(j: Job) { j.status == Completed }
  predicate IsFailed(j: Job) { j.status == Failed }

  /** `getDuration`: null unless both `started_at` and `completed_at` are set, otherwise the
      distance between them, whichever comes first. */
  function GetDuration(j: Job): (r: Option<nat>)
    ensures r.None? <==> j.startedAt.None? || j.completedAt.None?
    ensures r.Some? ==> j.startedAt.value + r.value == j.completedAt.value ||
                        j.completedAt.value + r.value == j.startedAt.value
  {
    if j.startedAt.None? || j.completedAt.None? then None
    else if j.completedAt.value >= j.startedAt.value then
      Some(j.completedAt.value - j.startedAt.value)
    else Some(j.startedAt.value - j.completedAt.value)
  }

  /** A row started at `t1` and finished at `t2`, no earlier, lasted `t2 - t1` seconds. */
  lemma DurationOfRun(j: Job, t1: int, t2: int)
    requires j.startedAt == Some(t1) && j.completedAt == Some(t2) && t1 <= t2
    ensures GetDuration(j) == Some(t2 - t1)
  {
  }

  /** `isset($a[$k])`: the key is present and its value is not null. */
  predicate IsSet(p: Payload, key: string) {
    key in p && !p[key].Null?
  }

  /** `getJobClass`: the payload's `displayName` when it is set, otherwise null. */
  function GetJobClass(j: Job): (r: Option<Value>)
    ensures r.Some? <==> IsSet(j.payload, "displayName")
    ensures r.Some? ==> r.value == j.payload["displayName"] && !r.value.Null?
  {
    if IsSet(j.payload, "displayName") then Some(j.payload["displayName"]) else None
  }

  predicate HasJobId(rows: seq<Job>, jobId: string) {
    exists i :: 0 <= i < |rows| && rows[i].jobId == jobId
  }

  /** `where('job_id', $id)->first()`. */
  function FindByJobId(rows: seq<Job>, jobId: string): (r: Option<Job>)
    ensures r.Some? <==> HasJobId(rows, jobId)
    ensures r.Some? ==> r.value in rows && r.value.jobId == jobId
  {
    if |rows| == 0 then None
    else if rows[0].jobId == jobId then Some(rows[0])
    else
      assert HasJobId(rows, jobId) ==> HasJobId(rows[1..], jobId) by {
        if HasJobId(rows, jobId) {
          var i :| 0 <= i < |rows| && rows[i].jobId == jobId;
          assert rows[1..][i - 1].jobId == jobId;
        }
      }
      FindByJobId(rows[1..], jobId)
  }

  /** Under the unique index, the row with a given `job_id` is the one found. */
  lemma FindByJobIdUnique(t: JobTable, i: int)
    requires WellFormed(t) && 0 <= i < |t.rows|
    ensures FindByJobId(t.rows, t.rows[i].jobId) == Some(t.rows[i])
  {
    var r := FindByJobId(t.rows, t.rows[i].jobId);
    var j :| 0 <= j < |t.rows| && t.rows[j] == r.value;
    assert t.rows[j].jobId == t.rows[i].jobId;
    assert j == i;
  }

  /** A row rewrite that keeps both keys. */
  ghost predicate KeepsKeys(f: Job -> Job) {
    forall j: Job :: f(j).id == j.id && f(j).jobId == j.jobId
  }

  /** `where('job_id', $id)->update(...)`: rewrite the rows with that `job_id` in place. */
  function UpdateJob(t: JobTable, jobId: string, f: Job -> Job): (r: JobTable)
    requires WellFormed(t) && KeepsKeys(f)
    ensures WellFormed(r)
    ensures r.nextId == t.nextId && |r.rows| == |t.rows|
    ensures forall i :: 0 <= i < |t.rows| ==>
              r.rows[i] == if t.rows[i].jobId == jobId then f(t.rows[i]) else t.rows[i]
    ensures !HasJobId(t.rows, jobId) ==> r == t
  {
    var rows := seq(|t.rows|, i requires 0 <= i < |t.rows| =>
                  if t.rows[i].jobId == jobId then f(t.rows[i]) else t.rows[i]);
    assert !HasJobId(t.rows, jobId) ==> rows == t.rows;
    JobTable(rows, t.nextId)
  }

  /** Deleting the rows a condition rejects (`where(...)->delete()` on the complement)
      keeps the table well formed. */
  lemma FilterWellFormed(t: JobTable, p: Job -> bool)
    requires WellFormed(t)
    ensures WellFormed(JobTable(Filter(t.rows, p), t.nextId))
  {
    FilterOrdered(t.rows, p, (a: Job, b: Job) => a.jobId != b.jobId);
    FilterOrdered(t.rows, p, (a: Job, b: Job) => a.id < b.id);
    var f := Filter(t.rows, p);
    forall i | 0 <= i < |f| ensures f[i].id < t.nextId {
      assert f[i] in f;
    }
  }

  // Query scopes, each a selection over the rows in order.

  /** The condition `where('status', $s)`. */
  function StatusIs(s: JobStatus): Job -> bool {
    (j: Job) => j.status == s
  }

  function WithStatus(rows: seq<Job>, s: JobStatus): (r: seq<Job>)
    ensures forall x :: x in r <==> x in rows && x.status == s
  {
    Filter(rows, StatusIs(s))
  }

  function OnQueue(rows: seq<Job>, queue: string): (r: seq<Job>)
    ensures forall x :: x in r <==> x in rows && x.queue == queue
  {
    Filter(rows, (j: Job) => j.queue == queue)
  }

  function FailedScope(rows: seq<Job>): (r: seq<Job>)
    ensures forall x :: x in r <==> x in rows && IsFailed(x)
  {
    WithStatus(rows, Failed)
  }

  function CompletedScope(rows: seq<Job>): (r: seq<Job>)
    ensures forall x :: x in r <==> x in rows && IsCompleted(x)
  {
    WithStatus(rows, Completed)
  }

  /** Default limit of the `recent` scope. */
  const RecentLimit := 100

  /** Newest first by `queued_at`. */
  predicate Descending(s: seq<Job>) {
    forall i, j :: 0 <= i < j < |s| ==> s[i].queuedAt >= s[j].queuedAt
  }

  function InsertDescending(x: Job, s: seq<Job>): (r: seq<Job>)
    requires Descending(s)
    ensures |r| == |s| + 1
    ensures forall y :: y in r ==> y == x || y in s
    ensures multiset(r) == multiset(s) + multiset{x}
    ensures Descending(r)
    decreases |s|
  {
    if |s| == 0 || x.queuedAt >= s[0].queuedAt then [x] + s
    else
      var rest := InsertDescending(x, s[1..]);
      assert s == [s[0]] + s[1..];
      assert forall i :: 0 <= i < |rest| ==> rest[i].queuedAt <= s[0].queuedAt by {
        forall i | 0 <= i < |rest| ensures rest[i].queuedAt <= s[0].queuedAt {
          assert rest[i] in rest;
          if rest[i] != x {
            var k :| 0 <= k < |s| && s[k] == rest[i];
          }
        }
      }
      [s[0]] + rest
  }

  /** `orderBy('queued_at', 'desc')`: a stable sort, so rows with equal `queued_at` keep
      their table order. */
  function SortDescending(s: seq<Job>): (r: seq<Job>)
    ensures Descending(r)
    ensures multiset(r) == multiset(s)
    decreases |s|
  {
    if |s| == 0 then []
    else
      assert s == [s[0]] + s[1..];
      InsertDescending(s[0], SortDescending(s[1..]))
  }

  /** In a descending sequence every element of a prefix is at least every element left
      out of it. */
  lemma DescendingPrefix(s: seq<Job>, n: nat)
    requires Descending(s) && n <= |s|
    ensures multiset(s[..n]) <= multiset(s)
    ensures forall x, y :: x in multiset(s) - multiset(s[..n]) && y in s[..n] ==>
              x.queuedAt <= y.queuedAt
  {
    assert s == s[..n] + s[n..];
    assert multiset(s) - multiset(s[..n]) == multiset(s[n..]);
    forall x, y | x in multiset(s) - multiset(s[..n]) && y in s[..n]
      ensures x.queuedAt <= y.queuedAt
    {
      assert x in s[n..];
      var a :| 0 <= a < |s[n..]| && s[n..][a] == x;
      var b :| 0 <= b < |s[..n]| && s[..n][b] == y;
      assert s[n + a] == x && s[b] == y;
    }
  }

  /** The `recent($limit)` scope: the `limit` newest rows, newest first. A negative limit is
      ignored by the query builder, leaving all rows. */
  function Recent(rows: seq<Job>, limit: int): (r: seq<Job>)
    ensures |r| == if 0 <= limit < |rows| then limit else |rows|
    ensures Descending(r)
    ensures multiset(r) <= multiset(rows)
    ensures forall x, y :: x in multiset(rows) - multiset(r) && y in r ==> x.queuedAt <= y.queuedAt
  {
    var sorted := SortDescending(rows);
    assert |sorted| == |multiset(sorted)| == |rows|;
    var n := if 0 <= limit < |rows| then limit else |rows|;
    DescendingPrefix(sorted, n);
    sorted[..n]
  }
}
