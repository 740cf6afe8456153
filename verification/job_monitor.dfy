/** `JobMonitor`: the queue-event listeners that keep `watchtower_jobs` in step with the
    queue. Every listener catches and reports whatever it throws, so each one is a total
    function here: a step that would fail (an id that cannot be cast to a string, a
    duplicate `job_id`) leaves the table as it was, and an update of an id that has no row
    matches nothing. */
module JobMonitor {
  import opened Prelude
  import opened Decimal
  import opened JobModel

  /** Queue name stored when the event carries none. */
  const DefaultQueue := "default"

  /** Prefix of the fallback id `uniqid('watchtower_', true)`. */
  const GeneratedIdPrefix := "watchtower_"

  /** The six payload keys a record keeps. */
  const PayloadKeys: set<string> :=
    {"displayName", "job", "maxTries", "maxExceptions", "timeout", "data"}

  /** What a listener can see of an event's job: the id its job object reports, when that
      object has a `getJobId` method, and the raw payload. */
  datatype EventSource = EventSource(jobObjectId: Option<string>, payload: Value)

  /** PHP's `(string)` cast. An array converts only with an "Array to string conversion"
      warning, which the framework's error handler raises as an exception: `None`. */
  function CastToString(v: Value): (r: Option<string>)
    ensures r.None? <==> v.Arr?
    ensures v.Str? ==> r == Some(v.s)
  {
    match v
    case Null => Some("")
    case Bool(b) => if b then Some("1") else Some("")
    case Int(i) => Some(IntToString(i))
    case Str(s) => Some(s)
    case Arr(_) => None
  }

  /** An integer id reads back as that integer. */
  lemma IntIdReadsBack(i: int)
    ensures CastToString(Int(i)).Some? && ParseInt(CastToString(Int(i)).value) == i
  {
    IntRoundTrip(i);
  }

  /** `extractJobId`: the job object's own id if it has one, else the payload's `id` if that
      is set, else a generated `watchtower_` id (`uniq` is what `uniqid` appends). `None`
      when the payload's `id` is an array, whose cast throws. */
  function ExtractJobId(e: EventSource, uniq: string): (r: Option<string>)
    ensures e.jobObjectId.Some? ==> r == e.jobObjectId
    ensures e.jobObjectId.None? && e.payload.Arr? && IsSet(e.payload.fields, "id") ==>
              r == CastToString(e.payload.fields["id"])
    ensures e.jobObjectId.None? && !(e.payload.Arr? && IsSet(e.payload.fields, "id")) ==>
              r == Some(GeneratedIdPrefix + uniq)
    ensures r.None? <==>
              e.jobObjectId.None? && e.payload.Arr? && IsSet(e.payload.fields, "id") &&
              e.payload.fields["id"].Arr?
  {
    if e.jobObjectId.Some? then e.jobObjectId
    else if e.payload.Arr? && IsSet(e.payload.fields, "id") then
      CastToString(e.payload.fields["id"])
    else Some(GeneratedIdPrefix + uniq)
  }

  /** `$payload[$key] ?? null`. */
  function FieldOrNull(fields: map<string, Value>, key: string): Value {
    if key in fields then fields[key] else Null
  }

  /** `extractPayload`: a string is first JSON-decoded (`decode` stands for `json_decode`,
      which yields null on bad input); anything that is then not an array gives the empty
      array; an array gives exactly the six kept keys, null where the key was missing. */
  function ExtractPayload(raw: Value, decode: string -> Value): (r: Payload)
    ensures var v := if raw.Str? then decode(raw.s) else raw;
            !v.Arr? ==> r == map[]
    ensures var v := if raw.Str? then decode(raw.s) else raw;
            v.Arr? ==> r.Keys == PayloadKeys &&
                       forall k :: k in PayloadKeys ==>
                         (r[k].Null? <==> !IsSet(v.fields, k)) &&
                         (IsSet(v.fields, k) ==> r[k] == v.fields[k])
  {
    var v := if raw.Str? then decode(raw.s) else raw;
    if !v.Arr? then map[]
    else map k | k in PayloadKeys :: FieldOrNull(v.fields, k)
  }

  /** The stored payload names the job class exactly when the raw one did. */
  lemma JobClassSurvivesExtraction(j: Job, raw: Value, decode: string -> Value)
    requires j.payload == ExtractPayload(raw, decode)
    ensures var v := if raw.Str? then decode(raw.s) else raw;
            GetJobClass(j) ==
              if v.Arr? && IsSet(v.fields, "displayName") then Some(v.fields["displayName"])
              else None
  {
  }

  /** `getCurrentWorkerId`: the worker is never identified. */
  function CurrentWorkerId(): (r: Option<int>)
    ensures r.None?
  {
    None
  }

  /** The row a queued event creates. */
  function QueuedRecord(t: JobTable, jobId: string, queue: Option<string>, connection: string,
                        payload: Payload, now: int): Job {
    Job(t.nextId, jobId, queue.GetOr(DefaultQueue), connection, payload, Pending, None, 0,
        None, now, None, None)
  }

  /** `recordJobQueued`: create a pending row stamped `now`, with zero attempts and the queue
      defaulting to `default`. An id whose cast throws, or a `job_id` already present (the
      unique index rejects it), is reported and nothing is written. */
  function RecordJobQueued(t: JobTable, e: EventSource, queue: Option<string>,
                           connection: string, now: int, uniq: string,
                           decode: string -> Value): (r: JobTable)
    requires WellFormed(t)
    ensures WellFormed(r)
    ensures ExtractJobId(e, uniq).None? ==> r == t
    ensures var id := ExtractJobId(e, uniq);
            id.Some? && HasJobId(t.rows, id.value) ==> r == t
    ensures var id := ExtractJobId(e, uniq);
            id.Some? && !HasJobId(t.rows, id.value) ==>
              |r.rows| == |t.rows| + 1 && r.rows[..|t.rows|] == t.rows &&
              FindByJobId(r.rows, id.value) == Some(r.rows[|t.rows|])
    ensures var o := ExtractJobId(e, uniq);
            o.Some? ==>
            var id := o.value;
            FindByJobId(r.rows, id).Some? &&
            (!HasJobId(t.rows, id) ==>
               var j := FindByJobId(r.rows, id).value;
               j.status == Pending && j.queuedAt == now && j.attempts == 0 &&
               j.queue == queue.GetOr(DefaultQueue) && j.startedAt.None? &&
               j.completedAt.None? && j.exception.None? && j.workerId.None? &&
               j.payload == ExtractPayload(e.payload, decode))
  {
    match ExtractJobId(e, uniq)
    case None => t
    case Some(id) =>
      if HasJobId(t.rows, id) then t
      else
        var j := QueuedRecord(t, id, queue, connection, ExtractPayload(e.payload, decode), now);
        var r := JobTable(t.rows + [j], t.nextId + 1);
        assert r.rows[..|t.rows|] == t.rows;
        FindByJobIdUnique(r, |t.rows|);
        r
  }

  /** `recordJobStarted`: the job's rows become `processing`, stamped `now`, with no worker. */
  function RecordJobStarted(t: JobTable, e: EventSource, now: int, uniq: string)
    : (r: JobTable)
    requires WellFormed(t)
    ensures WellFormed(r) && r.nextId == t.nextId && |r.rows| == |t.rows|
    ensures ExtractJobId(e, uniq).None? ==> r == t
    ensures forall i :: 0 <= i < |t.rows| ==>
              r.rows[i] == if ExtractJobId(e, uniq) == Some(t.rows[i].jobId)
                           then t.rows[i].(status := Processing, startedAt := Some(now),
                                           workerId := None)
                           else t.rows[i]
  {
    match ExtractJobId(e, uniq)
    case None => t
    case Some(id) =>
      UpdateJob(t, id, (j: Job) => j.(status := Processing, startedAt := Some(now),
                                      workerId := CurrentWorkerId()))
  }

  /** `recordJobCompleted`: the job's rows become `completed`, stamped `now`. */
  function RecordJobCompleted(t: JobTable, e: EventSource, now: int, uniq: string)
    : (r: JobTable)
    requires WellFormed(t)
    ensures WellFormed(r) && r.nextId == t.nextId && |r.rows| == |t.rows|
    ensures ExtractJobId(e, uniq).None? ==> r == t
    ensures forall i :: 0 <= i < |t.rows| ==>
              r.rows[i] == if ExtractJobId(e, uniq) == Some(t.rows[i].jobId)
                           then t.rows[i].(status := Completed, completedAt := Some(now))
                           else t.rows[i]
  {
    match ExtractJobId(e, uniq)
    case None => t
    case Some(id) =>
      UpdateJob(t, id, (j: Job) => j.(status := Completed, completedAt := Some(now)))
  }

  /** `recordJobFailed`: the job's rows become `failed`, stamped `now`, with the formatted
      exception (given here as text). */
  function RecordJobFailed(t: JobTable, e: EventSource, now: int, exception: string,
                           uniq: string): (r: JobTable)
    requires WellFormed(t)
    ensures WellFormed(r) && r.nextId == t.nextId && |r.rows| == |t.rows|
    ensures ExtractJobId(e, uniq).None? ==> r == t
    ensures forall i :: 0 <= i < |t.rows| ==>
              r.rows[i] == if ExtractJobId(e, uniq) == Some(t.rows[i].jobId)
                           then t.rows[i].(status := Failed, completedAt := Some(now),
                                           exception := Some(exception))
                           else t.rows[i]
  {
    match ExtractJobId(e, uniq)
    case None => t
    case Some(id) =>
      UpdateJob(t, id, (j: Job) => j.(status := Failed, completedAt := Some(now),
                                      exception := Some(exception)))
  }

  /** `recordJobRetrying`: `increment('attempts')` on the job's rows. */
  function RecordJobRetrying(t: JobTable, e: EventSource, uniq: string): (r: JobTable)
    requires WellFormed(t)
    ensures WellFormed(r) && r.nextId == t.nextId && |r.rows| == |t.rows|
    ensures ExtractJobId(e, uniq).None? ==> r == t
    ensures forall i :: 0 <= i < |t.rows| ==>
              r.rows[i] == if ExtractJobId(e, uniq) == Some(t.rows[i].jobId)
                           then t.rows[i].(attempts := t.rows[i].attempts + 1)
                           else t.rows[i]
  {
    match ExtractJobId(e, uniq)
    case None => t
    case Some(id) => UpdateJob(t, id, (j: Job) => j.(attempts := j.attempts + 1))
  }

  /** The queue events the service provider routes to the listeners. */
  datatype Event =
    | JobQueued(src: EventSource, queue: Option<string>, connection: string)
    | JobProcessing(src: EventSource)
    | JobProcessed(src: EventSource)
    | JobFailed(src: EventSource, exception: string)
    | JobRetryRequested(src: EventSource)

  /** One event at time `now`; `uniq` is the fallback id generator's output. */
  function Record(t: JobTable, e: Event, now: int, uniq: string, decode: string -> Value)
    : (r: JobTable)
    requires WellFormed(t)
    ensures WellFormed(r)
    ensures !e.JobQueued? ==> |r.rows| == |t.rows|
    ensures |t.rows| <= |r.rows| <= |t.rows| + 1
  {
    match e
    case JobQueued(src, q, c) => RecordJobQueued(t, src, q, c, now, uniq, decode)
    case JobProcessing(src) => RecordJobStarted(t, src, now, uniq)
    case JobProcessed(src) => RecordJobCompleted(t, src, now, uniq)
    case JobFailed(src, ex) => RecordJobFailed(t, src, now, ex, uniq)
    case JobRetryRequested(src) => RecordJobRetrying(t, src, uniq)
  }

  /** An update event whose job has no row changes nothing; in particular an event whose
      id had to be generated never matches a row whose id was not generated the same way. */
  lemma UnknownJobUnchanged(t: JobTable, e: Event, now: int, uniq: string,
                            decode: string -> Value)
    requires WellFormed(t) && !e.JobQueued?
    requires ExtractJobId(e.src, uniq).None? || !HasJobId(t.rows, ExtractJobId(e.src, uniq).value)
    ensures Record(t, e, now, uniq, decode) == t
  {
  }

  /** An event whose job object has no id and whose payload `id` is an array writes nothing:
      the cast throws inside every listener, which reports it. */
  lemma UncastableIdWritesNothing(t: JobTable, e: Event, now: int, uniq: string,
                                  decode: string -> Value)
    requires WellFormed(t)
    requires e.src.jobObjectId.None? && e.src.payload.Arr?
    requires "id" in e.src.payload.fields && e.src.payload.fields["id"].Arr?
    ensures Record(t, e, now, uniq, decode) == t
  {
    assert IsSet(e.src.payload.fields, "id");
  }

  /** A retry event adds exactly one attempt to the job's row and changes nothing else in
      the table. */
  lemma RetryAddsOneAttempt(t: JobTable, src: EventSource, uniq: string, i: int)
    requires WellFormed(t) && 0 <= i < |t.rows|
    requires ExtractJobId(src, uniq) == Some(t.rows[i].jobId)
    ensures var r := RecordJobRetrying(t, src, uniq);
            r.rows[i].attempts == t.rows[i].attempts + 1 &&
            r.rows[i].(attempts := t.rows[i].attempts) == t.rows[i] &&
            forall k :: 0 <= k < |t.rows| && k != i ==> r.rows[k] == t.rows[k]
  {
    forall k | 0 <= k < |t.rows| && k != i
      ensures RecordJobRetrying(t, src, uniq).rows[k] == t.rows[k]
    {
      assert t.rows[k].jobId != t.rows[i].jobId;
    }
  }

  /** Replaying events in order. `uniqid` runs anew at every listener call, so each event
      comes with its own fallback suffix: `uniqs[i]` belongs to `es[i]`. */
  function RecordAll(t: JobTable, es: seq<Event>, times: seq<int>, uniqs: seq<string>,
                     decode: string -> Value): (r: JobTable)
    requires WellFormed(t) && |times| == |es| && |uniqs| == |es|
    ensures WellFormed(r)
    ensures |t.rows| <= |r.rows| <= |t.rows| + |es|
    decreases |es|
  {
    if |es| == 0 then t
    else RecordAll(Record(t, es[0], times[0], uniqs[0], decode), es[1..], times[1..],
                   uniqs[1..], decode)
  }

  /** A queued event whose job carries no id of its own, so its row is keyed by the
      generated `watchtower_` id. */
  predicate IdlessQueued(e: Event) {
    e.JobQueued? && e.src.jobObjectId.None? &&
    !(e.src.payload.Arr? && IsSet(e.src.payload.fields, "id"))
  }

  /** Distinct `uniqid` outputs give distinct generated ids. */
  lemma GeneratedIdInjective(a: string, b: string)
    requires a != b
    ensures GeneratedIdPrefix + a != GeneratedIdPrefix + b
  {
    assert (GeneratedIdPrefix + a)[|GeneratedIdPrefix|..] == a;
    assert (GeneratedIdPrefix + b)[|GeneratedIdPrefix|..] == b;
  }

  /** An id-less queued event adds the row for its generated id and nothing else, so every
      other generated id stays unused. */
  lemma IdlessQueuedKeepsOthersFresh(t: JobTable, e: Event, now: int, uniq: string,
                                     other: string, decode: string -> Value)
    requires WellFormed(t) && IdlessQueued(e)
    requires !HasJobId(t.rows, GeneratedIdPrefix + uniq)
    requires !HasJobId(t.rows, GeneratedIdPrefix + other) && other != uniq
    ensures !HasJobId(Record(t, e, now, uniq, decode).rows, GeneratedIdPrefix + other)
  {
    var id := GeneratedIdPrefix + uniq;
    assert ExtractJobId(e.src, uniq) == Some(id);
    var t1 := Record(t, e, now, uniq, decode);
    assert t1.rows[..|t.rows|] == t.rows;
    var found := FindByJobId(t1.rows, id);
    GeneratedIdInjective(uniq, other);
    forall k | 0 <= k < |t1.rows| ensures t1.rows[k].jobId != GeneratedIdPrefix + other {
      if k < |t.rows| {
        assert t1.rows[k] == t.rows[k];
      } else {
        assert t1.rows[k] == found.value;
      }
    }
  }

  /** `k` queued events without ids, each given a distinct `uniqid` suffix that no row uses
      yet, add `k` rows. */
  lemma {:induction false} IdlessQueuedAddRows(t: JobTable, es: seq<Event>, times: seq<int>,
                                               uniqs: seq<string>, decode: string -> Value)
    requires WellFormed(t) && |times| == |es| && |uniqs| == |es|
    requires forall i :: 0 <= i < |es| ==> IdlessQueued(es[i])
    requires forall a, b :: 0 <= a < b < |uniqs| ==> uniqs[a] != uniqs[b]
    requires forall i :: 0 <= i < |uniqs| ==> !HasJobId(t.rows, GeneratedIdPrefix + uniqs[i])
    ensures |RecordAll(t, es, times, uniqs, decode).rows| == |t.rows| + |es|
    decreases |es|
  {
    if |es| > 0 {
      var t1 := Record(t, es[0], times[0], uniqs[0], decode);
      assert ExtractJobId(es[0].src, uniqs[0]) == Some(GeneratedIdPrefix + uniqs[0]);
      assert |t1.rows| == |t.rows| + 1;
      forall i | 0 < i < |uniqs| ensures !HasJobId(t1.rows, GeneratedIdPrefix + uniqs[i]) {
        IdlessQueuedKeepsOthersFresh(t, es[0], times[0], uniqs[0], uniqs[i], decode);
      }
      assert forall i :: 0 <= i < |uniqs[1..]| ==> uniqs[1..][i] == uniqs[i + 1];
      IdlessQueuedAddRows(t1, es[1..], times[1..], uniqs[1..], decode);
    }
  }

  /** The row a job's queued, processing and processed events leave behind. */
  lemma LifecycleRow(t: JobTable, src: EventSource, queue: Option<string>, connection: string,
                     t0: int, t1: int, t2: int, uniq: string, decode: string -> Value)
    requires WellFormed(t)
    requires src.jobObjectId.Some? && !HasJobId(t.rows, src.jobObjectId.value)
    ensures var c := RecordJobCompleted(RecordJobStarted(
                       RecordJobQueued(t, src, queue, connection, t0, uniq, decode),
                       src, t1, uniq), src, t2, uniq);
            |c.rows| == |t.rows| + 1 &&
            c.rows[|t.rows|] ==
              QueuedRecord(t, src.jobObjectId.value, queue, connection,
                           ExtractPayload(src.payload, decode), t0)
                .(status := Completed, startedAt := Some(t1), workerId := None,
                  completedAt := Some(t2))
  {
    var n := |t.rows|;
    var a := RecordJobQueued(t, src, queue, connection, t0, uniq, decode);
    var b := RecordJobStarted(a, src, t1, uniq);
    assert b.rows[n] == a.rows[n].(status := Processing, startedAt := Some(t1), workerId := None);
  }

  /** The happy path of one job whose events carry a stable id: queued at `t0`, picked up
      at `t1`, finished at `t2`. Its row ends `completed`, never attributed to a worker,
      with no attempts counted and a duration of exactly `t2 - t1`. */
  lemma SuccessfulLifecycle(t: JobTable, src: EventSource, queue: Option<string>,
                            connection: string, t0: int, t1: int, t2: int,
                            uniq: string, decode: string -> Value)
    requires WellFormed(t)
    requires src.jobObjectId.Some? && !HasJobId(t.rows, src.jobObjectId.value)
    requires t1 <= t2
    ensures var r := RecordJobCompleted(RecordJobStarted(
                       RecordJobQueued(t, src, queue, connection, t0, uniq, decode),
                       src, t1, uniq), src, t2, uniq);
            var j := FindByJobId(r.rows, src.jobObjectId.value);
            j.Some? && j.value.status == Completed && j.value.queuedAt == t0 &&
            j.value.startedAt == Some(t1) && j.value.completedAt == Some(t2) &&
            j.value.attempts == 0 && j.value.workerId.None? &&
            GetDuration(j.value) == Some(t2 - t1)
  {
    var c := RecordJobCompleted(RecordJobStarted(
               RecordJobQueued(t, src, queue, connection, t0, uniq, decode),
               src, t1, uniq), src, t2, uniq);
    LifecycleRow(t, src, queue, connection, t0, t1, t2, uniq, decode);
    FindByJobIdUnique(c, |t.rows|);
    DurationOfRun(c.rows[|t.rows|], t1, t2);
  }
}
