/** The `watchtower_workers` table: one row per worker process, in primary-key order.
    `worker_id` carries a unique index, which `UniqueIds` states and every operation of the
    model preserves. Timestamps are integer seconds. */
module WorkerModel {
  import opened Prelude

  /** The status strings the code writes; there is no `restarting` status. */
  datatype WorkerStatus = Running | Paused | Stopped

  datatype Worker = Worker(
    workerId: string,
    supervisor: string,
    queue: string,
    pid: Option<int>,
    status: WorkerStatus,
    startedAt: int,
    lastHeartbeat: Option<int>)

  type Registry = seq<Worker>

  /** Default threshold of `isHealthy` and of the `stale` scope, in seconds. */
  const HealthyThreshold := 30

  const DefaultSupervisor := "default"

  predicate IsRunning(w: Worker) { w.status == Running }
  predicate IsPaused(w: Worker) { w.status == Paused }
  predicate IsStopped(w: Worker) { w.status == Stopped }

  /** Running or paused: the statuses the supervisor and the manager treat as alive. */
  predicate IsActive(w: Worker) { w.status == Running || w.status == Paused }

  /** `isHealthy`: a heartbeat no more than `threshold` seconds old. The age is signed
      (a heartbeat stamped after `now` has negative age). */
  function IsHealthy(w: Worker, now: int, threshold: int): (b: bool)
    ensures w.lastHeartbeat.None? ==> !b
    ensures b ==> now - threshold <= w.lastHeartbeat.value
  {
    match w.lastHeartbeat
    case None => false
    case Some(hb) => now - hb <= threshold
  }

  /** The `stale` scope's condition: no heartbeat, or one strictly older than `now - threshold`. */
  function IsStale(w: Worker, now: int, threshold: int): (b: bool)
    ensures w.lastHeartbeat.None? ==> b
    ensures w.lastHeartbeat.Some? && w.lastHeartbeat.value >= now - threshold ==> !b
  {
    w.lastHeartbeat.None? || w.lastHeartbeat.value < now - threshold
  }

  /** Staleness and health are complementary for the same threshold; a heartbeat exactly
      `threshold` seconds old is healthy and not stale. */
  lemma StaleIffNotHealthy(w: Worker, now: int, threshold: int)
    ensures IsStale(w, now, threshold) <==> !IsHealthy(w, now, threshold)
    ensures w.lastHeartbeat == Some(now - threshold) ==>
              IsHealthy(w, now, threshold) && !IsStale(w, now, threshold)
  {
  }

  /** `getUptime`: signed seconds since `started_at`. */
  function Uptime(w: Worker, now: int): (r: int)
    ensures r < 0 <==> now < w.startedAt
    ensures w.startedAt + r == now
  {
    now - w.startedAt
  }

  /** At most one row per `worker_id`. */
  predicate UniqueIds(reg: Registry) {
    forall i, j :: 0 <= i < j < |reg| ==> reg[i].workerId != reg[j].workerId
  }

  predicate Registered(reg: Registry, id: string) {
    exists i :: 0 <= i < |reg| && reg[i].workerId == id
  }

  /** `where('worker_id', $id)->first()`. */
  function Lookup(reg: Registry, id: string): (r: Option<Worker>)
    ensures r.Some? <==> Registered(reg, id)
    ensures r.Some? ==> r.value in reg && r.value.workerId == id
  {
    if |reg| == 0 then None
    else if reg[0].workerId == id then Some(reg[0])
    else
      var r := Lookup(reg[1..], id);
      assert Registered(reg, id) ==> Registered(reg[1..], id) by {
        if Registered(reg, id) {
          var i :| 0 <= i < |reg| && reg[i].workerId == id;
          assert reg[1..][i - 1].workerId == id;
        }
      }
      r
  }

  /** Under the unique index, the row with a given id is the one `Lookup` returns. */
  lemma LookupUnique(reg: Registry, i: int)
    requires UniqueIds(reg)
    requires 0 <= i < |reg|
    ensures Lookup(reg, reg[i].workerId) == Some(reg[i])
  {
    var r := Lookup(reg, reg[i].workerId);
    var j :| 0 <= j < |reg| && reg[j] == r.value;
    if j != i {
      assert reg[j].workerId == reg[i].workerId;
    }
  }

  /** `where('worker_id', $id)->update(...)`: rewrite every row with that id, in place. */
  function UpdateWhere(reg: Registry, id: string, f: Worker -> Worker): (r: Registry)
    ensures |r| == |reg|
    ensures forall i :: 0 <= i < |reg| ==>
              r[i] == (if reg[i].workerId == id then f(reg[i]) else reg[i])
  {
    seq(|reg|, i requires 0 <= i < |reg| => if reg[i].workerId == id then f(reg[i]) else reg[i])
  }

  /** Updating rows of one id without changing their ids keeps the index unique. */
  lemma UpdateWherePreservesUnique(reg: Registry, id: string, f: Worker -> Worker)
    requires UniqueIds(reg)
    requires forall w: Worker :: w.workerId == id ==> f(w).workerId == id
    ensures UniqueIds(UpdateWhere(reg, id, f))
    ensures forall x :: Registered(UpdateWhere(reg, id, f), x) <==> Registered(reg, x)
  {
    var r := UpdateWhere(reg, id, f);
    forall x | Registered(r, x) ensures Registered(reg, x) {
      var i :| 0 <= i < |r| && r[i].workerId == x;
      assert reg[i].workerId == x;
    }
    forall x | Registered(reg, x) ensures Registered(r, x) {
      var i :| 0 <= i < |reg| && reg[i].workerId == x;
      assert r[i].workerId == x;
    }
  }

  /** Sets the status of the rows with `id`; no other row and no other column changes. */
  function SetStatus(reg: Registry, id: string, s: WorkerStatus): (r: Registry)
    ensures |r| == |reg|
    ensures forall i :: 0 <= i < |reg| && reg[i].workerId == id ==> r[i] == reg[i].(status := s)
    ensures forall i :: 0 <= i < |reg| && reg[i].workerId != id ==> r[i] == reg[i]
  {
    UpdateWhere(reg, id, (w: Worker) => w.(status := s))
  }

  /** Stamps the heartbeat of the rows with `id`. */
  function SetHeartbeat(reg: Registry, id: string, now: int): (r: Registry)
    ensures |r| == |reg|
    ensures forall i :: 0 <= i < |reg| && reg[i].workerId == id ==>
              r[i] == reg[i].(lastHeartbeat := Some(now))
    ensures forall i :: 0 <= i < |reg| && reg[i].workerId != id ==> r[i] == reg[i]
  {
    UpdateWhere(reg, id, (w: Worker) => w.(lastHeartbeat := Some(now)))
  }

  lemma SetStatusPreservesUnique(reg: Registry, id: string, s: WorkerStatus)
    requires UniqueIds(reg)
    ensures UniqueIds(SetStatus(reg, id, s))
    ensures forall x :: Registered(SetStatus(reg, id, s), x) <==> Registered(reg, x)
  {
    UpdateWherePreservesUnique(reg, id, (w: Worker) => w.(status := s));
  }

  lemma SetHeartbeatPreservesUnique(reg: Registry, id: string, now: int)
    requires UniqueIds(reg)
    ensures UniqueIds(SetHeartbeat(reg, id, now))
    ensures forall x :: Registered(SetHeartbeat(reg, id, now), x) <==> Registered(reg, x)
  {
    UpdateWherePreservesUnique(reg, id, (w: Worker) => w.(lastHeartbeat := Some(now)));
  }

  /** `updateOrCreate(['worker_id' => $id], ...)`: overwrite the row with that id if there is
      one, otherwise append a new row. Either way exactly one row carries the id afterwards. */
  function Upsert(reg: Registry, w: Worker): (r: Registry)
    requires UniqueIds(reg)
    ensures UniqueIds(r)
    ensures Lookup(r, w.workerId) == Some(w)
    ensures forall x :: Registered(r, x) <==> Registered(reg, x) || x == w.workerId
    ensures |r| == if Registered(reg, w.workerId) then |reg| else |reg| + 1
    ensures forall i :: 0 <= i < |reg| && reg[i].workerId != w.workerId ==> r[i] == reg[i]
  {
    if Registered(reg, w.workerId) then
      var r := UpdateWhere(reg, w.workerId, (_: Worker) => w);
      UpdateWherePreservesUnique(reg, w.workerId, (_: Worker) => w);
      var i :| 0 <= i < |reg| && reg[i].workerId == w.workerId;
      LookupUnique(r, i);
      r
    else
      var r := reg + [w];
      assert r[|reg|] == w;
      LookupUnique(r, |reg|);
      assert forall x :: Registered(r, x) ==> Registered(reg, x) || x == w.workerId by {
        forall x | Registered(r, x) ensures Registered(reg, x) || x == w.workerId {
          var i :| 0 <= i < |r| && r[i].workerId == x;
          if i < |reg| { assert reg[i].workerId == x; }
        }
      }
      assert forall x :: Registered(reg, x) ==> Registered(r, x) by {
        forall x | Registered(reg, x) ensures Registered(r, x) {
          var i :| 0 <= i < |reg| && reg[i].workerId == x;
          assert r[i].workerId == x;
        }
      }
      r
  }

  /** `Worker::create` of a row whose id is not yet taken. */
  function Insert(reg: Registry, w: Worker): (r: Registry)
    requires UniqueIds(reg)
    requires !Registered(reg, w.workerId)
    ensures UniqueIds(r)
    ensures r == reg + [w]
    ensures Lookup(r, w.workerId) == Some(w)
  {
    Upsert(reg, w)
  }

  // Query scopes, each a selection over the table in row order.

  /** The condition `where('status', $s)`. */
  function HasStatus(s: WorkerStatus): Worker -> bool {
    (w: Worker) => w.status == s
  }

  function WithStatus(reg: Registry, s: WorkerStatus): (r: Registry)
    ensures forall w :: w in r <==> w in reg && w.status == s
  {
    Filter(reg, HasStatus(s))
  }

  function ForSupervisor(reg: Registry, supervisor: string): (r: Registry)
    ensures forall w :: w in r <==> w in reg && w.supervisor == supervisor
  {
    Filter(reg, (w: Worker) => w.supervisor == supervisor)
  }

  /** The `running` scope: status `running` only, paused workers excluded. */
  function RunningScope(reg: Registry): (r: Registry)
    ensures forall w :: w in r <==> w in reg && IsRunning(w)
    ensures forall w :: w in r ==> !IsPaused(w)
  {
    WithStatus(reg, Running)
  }

  /** The `stale` scope's condition at a given instant and threshold. */
  function StaleAt(now: int, threshold: int): Worker -> bool {
    (w: Worker) => IsStale(w, now, threshold)
  }

  function Stale(reg: Registry, now: int, threshold: int): (r: Registry)
    ensures forall w :: w in r <==> w in reg && !IsHealthy(w, now, threshold)
  {
    Filter(reg, StaleAt(now, threshold))
  }
}
