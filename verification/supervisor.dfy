/** `SupervisorCommand` (`watchtower:supervisor`): the long-running reconciler. Each pass
    cleans stale rows, counts the supervisor's running and paused rows, tops the fleet up to
    `min_processes` round-robin over the configured queues, then checks every row it counted
    for a live process, marking dead ones stopped and replacing them on their own queue.
    Spawning and liveness are oracles, as in `WorkerManager`. */
module Supervisor {
  import opened Prelude
  import opened WorkerModel
  import opened ControlChannel
  import opened Store
  import opened WorkerManager

  /** The `queue` setting: one name or a list; `(array)` turns it into a list. A `*` is an
      ordinary queue name here, nothing expands it. */
  datatype QueueSetting = OneQueue(name: string) | QueueList(names: seq<string>)

  function Queues(q: QueueSetting): (qs: seq<string>)
    ensures q.OneQueue? ==> qs == [q.name]
    ensures q.QueueList? ==> qs == q.names
  {
    match q
    case OneQueue(n) => [n]
    case QueueList(ns) => ns
  }

  /** One entry of `watchtower.supervisors`. `balance` and `max_processes` are carried
      because the configuration has them; the pass never reads them. */
  datatype SupervisorConfig = SupervisorConfig(
    queue: QueueSetting,
    balance: string,
    minProcesses: int,
    maxProcesses: int,
    tries: Option<int>,
    timeout: Option<int>,
    memory: Option<int>,
    sleep: Option<int>)

  /** The options every start of this supervisor passes: its own name and the
      configuration's values with the defaults 3, 60, 128 and 3. */
  function Options(name: string, cfg: SupervisorConfig): (o: StartOptions)
    ensures o.supervisor == Some(name)
    ensures o.tries.Some? && o.timeout.Some? && o.memory.Some? && o.sleep.Some?
    ensures cfg.tries.None? ==> o.tries == Some(3)
    ensures cfg.timeout.None? ==> o.timeout == Some(60)
    ensures cfg.memory.None? ==> o.memory == Some(128)
    ensures cfg.sleep.None? ==> o.sleep == Some(3)
  {
    StartOptions(Some(name), Some(cfg.tries.GetOr(3)), Some(cfg.timeout.GetOr(60)),
                 Some(cfg.memory.GetOr(128)), Some(cfg.sleep.GetOr(3)))
  }

  /** `getNextQueue`: round-robin by index; an empty list is a division by zero (`None`). */
  function GetNextQueue(qs: seq<string>, index: nat): (r: Option<string>)
    ensures r.None? <==> |qs| == 0
    ensures r.Some? ==> r.value in qs
  {
    if |qs| == 0 then None else Some(qs[index % |qs|])
  }

  /** The first `|qs|` starts visit every queue once, in list order, and the assignment
      repeats with period `|qs|`. */
  lemma RoundRobin(qs: seq<string>, index: nat)
    requires |qs| > 0
    ensures index < |qs| ==> GetNextQueue(qs, index) == Some(qs[index])
    ensures GetNextQueue(qs, index + |qs|) == GetNextQueue(qs, index)
  {
    ModShift(index, |qs|);
    assert index < |qs| ==> index % |qs| == index;
  }

  /** The rows a supervisor counts as its fleet: its own, running or paused. */
  function SupervisedBy(name: string): Worker -> bool {
    (x: Worker) => x.supervisor == name && IsActive(x)
  }

  /** A counted row whose process is gone. */
  function Dead(name: string, live: set<int>): Worker -> bool {
    (x: Worker) => x.supervisor == name && IsActive(x) && !IsProcessRunning(x.pid, live)
  }

  /** The spawn oracle hands out ids that are pairwise distinct and not yet in the table
      (the UUIDs `startWorker` generates). */
  predicate FreshSpawns(reg: Registry, spawns: seq<Spawn>) {
    && (forall j :: 0 <= j < |spawns| ==> !Registered(reg, spawns[j].workerId))
    && (forall a, b :: 0 <= a < b < |spawns| ==> spawns[a].workerId != spawns[b].workerId)
  }

  lemma FreshAfterStart(w: World, queue: string, opts: StartOptions, spawns: seq<Spawn>, now: int)
    requires UniqueIds(w.registry) && |spawns| > 0 && FreshSpawns(w.registry, spawns)
    ensures FreshSpawns(StartWorker(w, queue, opts, spawns[0], now).world.registry, spawns[1..])
  {
    var reg := StartWorker(w, queue, opts, spawns[0], now).world.registry;
    forall j | 0 <= j < |spawns[1..]| ensures !Registered(reg, spawns[1..][j].workerId) {
      assert spawns[1..][j] == spawns[j + 1];
    }
  }

  /** The rows `toStart - i` starts from index `i` append: the `j`-th on the next queue
      round-robin, under the `j`-th spawned id. */
  function NewRows(qs: seq<string>, opts: StartOptions, i: nat, n: nat, spawns: seq<Spawn>,
                   now: int): (rows: seq<Worker>)
    requires |qs| > 0 && |spawns| >= n
    ensures |rows| == n
    ensures forall j :: 0 <= j < n ==>
              rows[j].queue == qs[(i + j) % |qs|] && rows[j].workerId == spawns[j].workerId
              && rows[j].status == Running && rows[j].supervisor == opts.supervisor.GetOr(DefaultSupervisor)
  {
    seq(n, j requires 0 <= j < n => NewWorkerRecord(qs[(i + j) % |qs|], opts, spawns[j], now))
  }

  /** Peeling the first start off the scale-up rows. */
  lemma NewRowsCons(qs: seq<string>, opts: StartOptions, i: nat, n: nat, spawns: seq<Spawn>,
                    now: int)
    requires |qs| > 0 && |spawns| >= n > 0
    ensures NewRows(qs, opts, i, n, spawns, now)
         == [NewWorkerRecord(qs[i % |qs|], opts, spawns[0], now)]
            + NewRows(qs, opts, i + 1, n - 1, spawns[1..], now)
  {
    var a := NewRows(qs, opts, i, n, spawns, now);
    var b := [NewWorkerRecord(qs[i % |qs|], opts, spawns[0], now)]
             + NewRows(qs, opts, i + 1, n - 1, spawns[1..], now);
    forall j | 0 <= j < n ensures a[j] == b[j] {
      if j > 0 {
        assert spawns[1..][j - 1] == spawns[j];
        assert i + 1 + (j - 1) == i + j;
      }
    }
  }

  /** The scale-up loop from index `i` to `toStart`: the starts append their rows in order,
      each on the next queue round-robin; the channel is untouched and the remaining spawned
      ids stay fresh. */
  function ScaleUp(w: World, opts: StartOptions, qs: seq<string>, i: nat, toStart: nat,
                   spawns: seq<Spawn>, now: int): (r: World)
    requires |qs| > 0 && i <= toStart
    requires UniqueIds(w.registry) && FreshSpawns(w.registry, spawns)
    requires |spawns| >= toStart - i
    ensures UniqueIds(r.registry)
    ensures r.channel == w.channel
    ensures r.registry == w.registry + NewRows(qs, opts, i, toStart - i, spawns, now)
    ensures FreshSpawns(r.registry, spawns[toStart - i..])
    decreases toStart - i
  {
    if i == toStart then
      assert w.registry + NewRows(qs, opts, i, 0, spawns, now) == w.registry;
      w
    else
      var q := GetNextQueue(qs, i).value;
      var s := StartWorker(w, q, opts, spawns[0], now);
      FreshAfterStart(w, q, opts, spawns, now);
      var r := ScaleUp(s.world, opts, qs, i + 1, toStart, spawns[1..], now);
      ScaleUpStep(w.registry, qs, opts, i, toStart, spawns, now);
      r
  }

  /** The table after the first start of the scale-up, followed by the rest of its rows, is
      the table followed by all of them. */
  lemma ScaleUpStep(reg: Registry, qs: seq<string>, opts: StartOptions, i: nat, toStart: nat,
                    spawns: seq<Spawn>, now: int)
    requires |qs| > 0 && i < toStart && |spawns| >= toStart - i
    ensures (reg + [NewWorkerRecord(GetNextQueue(qs, i).value, opts, spawns[0], now)])
            + NewRows(qs, opts, i + 1, toStart - (i + 1), spawns[1..], now)
         == reg + NewRows(qs, opts, i, toStart - i, spawns, now)
    ensures spawns[1..][toStart - (i + 1)..] == spawns[toStart - i..]
  {
    NewRowsCons(qs, opts, i, toStart - i, spawns, now);
    ConcatAssoc(reg, [NewWorkerRecord(qs[i % |qs|], opts, spawns[0], now)],
                NewRows(qs, opts, i + 1, toStart - (i + 1), spawns[1..], now));
  }


  /** The table after the liveness loop has marked the dead rows of `snap[k..]` stopped:
      position by position, nothing else changes. */
  function MarkDead(reg: Registry, snap: Registry, k: nat, name: string, live: set<int>)
    : (r: Registry)
    requires |snap| <= |reg|
    ensures |r| == |reg|
    ensures forall j :: 0 <= j < |reg| ==>
              r[j] == if k <= j < |snap| && Dead(name, live)(snap[j])
                      then reg[j].(status := Stopped) else reg[j]
  {
    seq(|reg|, j requires 0 <= j < |reg| =>
      if k <= j < |snap| && Dead(name, live)(snap[j]) then reg[j].(status := Stopped) else reg[j])
  }

  /** Some dead row of `dead` is on queue `q`. */
  predicate OnDeadQueue(dead: Registry, name: string, live: set<int>, q: string) {
    exists d :: d in dead && Dead(name, live)(d) && d.queue == q
  }

  /** The replacement rows: one per dead row of `dead`, in order, each on that row's queue
      and under the next spawned id. */
  function Replacements(dead: Registry, name: string, live: set<int>, opts: StartOptions,
                        spawns: seq<Spawn>, now: int): (rows: seq<Worker>)
    requires |spawns| >= Count(dead, Dead(name, live))
    ensures |rows| == Count(dead, Dead(name, live))
    ensures forall j :: 0 <= j < |rows| ==>
              rows[j].workerId == spawns[j].workerId && rows[j].status == Running
              && rows[j].supervisor == opts.supervisor.GetOr(DefaultSupervisor)
    decreases |dead|
  {
    if |dead| == 0 then []
    else
      CountCons(dead, Dead(name, live));
      if Dead(name, live)(dead[0]) then
        var rest := Replacements(dead[1..], name, live, opts, spawns[1..], now);
        var rows := [NewWorkerRecord(dead[0].queue, opts, spawns[0], now)] + rest;
        assert forall j :: 1 <= j < |rows| ==> rows[j] == rest[j - 1] && spawns[j] == spawns[1..][j - 1];
        rows
      else
        Replacements(dead[1..], name, live, opts, spawns, now)
  }

  /** Every replacement runs on the queue of a dead row it replaces. */
  lemma {:induction false} ReplacementQueues(dead: Registry, name: string, live: set<int>,
                                             opts: StartOptions, spawns: seq<Spawn>, now: int)
    requires |spawns| >= Count(dead, Dead(name, live))
    ensures forall x :: x in Replacements(dead, name, live, opts, spawns, now) ==>
              OnDeadQueue(dead, name, live, x.queue)
    decreases |dead|
  {
    if |dead| > 0 {
      CountCons(dead, Dead(name, live));
      assert forall q :: OnDeadQueue(dead[1..], name, live, q) ==> OnDeadQueue(dead, name, live, q)
      by {
        forall q | OnDeadQueue(dead[1..], name, live, q) ensures OnDeadQueue(dead, name, live, q) {
          var d :| d in dead[1..] && Dead(name, live)(d) && d.queue == q;
          assert d in dead;
        }
      }
      if Dead(name, live)(dead[0]) {
        ReplacementQueues(dead[1..], name, live, opts, spawns[1..], now);
      } else {
        ReplacementQueues(dead[1..], name, live, opts, spawns, now);
      }
    }
  }

  lemma MarkDeadSkip(reg: Registry, snap: Registry, k: nat, name: string, live: set<int>)
    requires k < |snap| <= |reg| && !Dead(name, live)(snap[k])
    ensures MarkDead(reg, snap, k + 1, name, live) == MarkDead(reg, snap, k, name, live)
  {
  }

  /** Stopping the row at `k` by id is the first step of marking `snap[k..]`. */
  lemma MarkDeadStop(reg: Registry, snap: Registry, k: nat, name: string, live: set<int>)
    requires k < |snap| <= |reg| && UniqueIds(reg)
    requires reg[k] == snap[k] && Dead(name, live)(snap[k])
    ensures MarkDead(SetStatus(reg, snap[k].workerId, Stopped), snap, k + 1, name, live)
         == MarkDead(reg, snap, k, name, live)
  {
  }

  lemma MarkDeadAppend(reg: Registry, snap: Registry, k: nat, name: string, live: set<int>,
                       x: Worker)
    requires |snap| <= |reg|
    ensures MarkDead(reg + [x], snap, k, name, live) == MarkDead(reg, snap, k, name, live) + [x]
  {
  }

  /** Rows appended after the snapshot are never marked, and marking keeps every id. */
  lemma MarkDeadTail(snap: Registry, name: string, live: set<int>, extra: seq<Worker>)
    ensures MarkDead(snap + extra, snap, 0, name, live)[|snap|..] == extra
    ensures forall i :: 0 <= i < |snap| ==>
              MarkDead(snap + extra, snap, 0, name, live)[i].workerId == snap[i].workerId
  {
    var md := MarkDead(snap + extra, snap, 0, name, live);
    forall j | 0 <= j < |extra| ensures md[|snap|..][j] == extra[j] {
      assert md[|snap| + j] == (snap + extra)[|snap| + j];
    }
  }

  /** `Replacements`, one row of the snapshot at a time. */
  lemma ReplacementsCons(dead: Registry, name: string, live: set<int>, opts: StartOptions,
                         spawns: seq<Spawn>, now: int)
    requires |dead| > 0 && |spawns| >= Count(dead, Dead(name, live))
    ensures Dead(name, live)(dead[0]) ==> |spawns| > 0
    ensures Replacements(dead, name, live, opts, spawns, now)
         == if Dead(name, live)(dead[0])
            then [NewWorkerRecord(dead[0].queue, opts, spawns[0], now)]
                 + Replacements(dead[1..], name, live, opts, spawns[1..], now)
            else Replacements(dead[1..], name, live, opts, spawns, now)
  {
    CountCons(dead, Dead(name, live));
  }

  /** What is left after the liveness loop has handled one row: the table, and the spawned
      ids not yet used. */
  datatype Checked = Checked(world: World, spawns: seq<Spawn>)

  /** Everything the liveness loop still has to do from row `k` on, as a table: `reg` with
      the dead rows of `snap[k..]` stopped, followed by their replacements when `replace`. */
  function Outcome(reg: Registry, snap: Registry, k: nat, name: string, live: set<int>,
                   opts: StartOptions, replace: bool, spawns: seq<Spawn>, now: int): Registry
    requires k <= |snap| <= |reg|
    requires replace ==> |spawns| >= Count(snap[k..], Dead(name, live))
  {
    MarkDead(reg, snap, k, name, live)
    + if replace then Replacements(snap[k..], name, live, opts, spawns, now) else []
  }

  /** Stopping the row at `k` by id leaves the unique index, the fresh ids and every later
      snapshot row as they were. */
  lemma StopRow(reg: Registry, snap: Registry, k: nat, spawns: seq<Spawn>)
    requires k < |snap| <= |reg| && UniqueIds(reg)
    requires forall j :: k <= j < |snap| ==> reg[j] == snap[j]
    requires FreshSpawns(reg, spawns)
    ensures UniqueIds(SetStatus(reg, snap[k].workerId, Stopped))
    ensures FreshSpawns(SetStatus(reg, snap[k].workerId, Stopped), spawns)
    ensures forall j :: k + 1 <= j < |snap| ==> SetStatus(reg, snap[k].workerId, Stopped)[j] == snap[j]
  {
    SetStatusPreservesUnique(reg, snap[k].workerId, Stopped);
    forall j | k + 1 <= j < |snap| ensures SetStatus(reg, snap[k].workerId, Stopped)[j] == snap[j] {
      assert reg[j].workerId != reg[k].workerId;
    }
  }

  /** One iteration of the liveness loop: the row `snap[k]`, if it is counted and its
      process is gone, is marked stopped and (when `replace`) replaced on its own queue. */
  function CheckRow(w: World, snap: Registry, k: nat, name: string, opts: StartOptions,
                    replace: bool, live: set<int>, spawns: seq<Spawn>, now: int): (r: Checked)
    requires k < |snap| <= |w.registry|
    requires UniqueIds(w.registry)
    requires forall j :: k <= j < |snap| ==> w.registry[j] == snap[j]
    requires FreshSpawns(w.registry, spawns)
    requires replace ==> |spawns| >= Count(snap[k..], Dead(name, live))
    ensures UniqueIds(r.world.registry)
    ensures r.world.channel == w.channel
    ensures |snap| <= |r.world.registry|
    ensures forall j :: k + 1 <= j < |snap| ==> r.world.registry[j] == snap[j]
    ensures FreshSpawns(r.world.registry, r.spawns)
    ensures replace ==> |r.spawns| >= Count(snap[k + 1..], Dead(name, live))
    ensures Dead(name, live)(snap[k]) && replace ==>
              r.world.registry == SetStatus(w.registry, snap[k].workerId, Stopped)
                                  + [NewWorkerRecord(snap[k].queue, opts, spawns[0], now)]
              && r.spawns == spawns[1..]
    ensures Dead(name, live)(snap[k]) && !replace ==>
              r.world.registry == SetStatus(w.registry, snap[k].workerId, Stopped)
              && r.spawns == spawns
    ensures !Dead(name, live)(snap[k]) ==> r == Checked(w, spawns)
  {
    var x := snap[k];
    assert snap[k..][1..] == snap[k + 1..];
    assert w.registry[k] == x;
    CountCons(snap[k..], Dead(name, live));
    if SupervisedBy(name)(x) && !IsWorkerRunning(w.registry, x.workerId, live) then
      var stopped := World(SetStatus(w.registry, x.workerId, Stopped), w.channel);
      StopRow(w.registry, snap, k, spawns);
      if replace then
        var s := StartWorker(stopped, x.queue, opts, spawns[0], now);
        FreshAfterStart(stopped, x.queue, opts, spawns, now);
        Checked(s.world, spawns[1..])
      else
        Checked(stopped, spawns)
    else
      Checked(w, spawns)
  }

  /** One iteration of the liveness loop moves the loop's outcome forward by one row without
      changing it. */
  lemma CheckRowOutcome(w: World, snap: Registry, k: nat, name: string, opts: StartOptions,
                        replace: bool, live: set<int>, spawns: seq<Spawn>, now: int)
    requires k < |snap| <= |w.registry|
    requires UniqueIds(w.registry)
    requires forall j :: k <= j < |snap| ==> w.registry[j] == snap[j]
    requires FreshSpawns(w.registry, spawns)
    requires replace ==> |spawns| >= Count(snap[k..], Dead(name, live))
    ensures var r := CheckRow(w, snap, k, name, opts, replace, live, spawns, now);
            Outcome(r.world.registry, snap, k + 1, name, live, opts, replace, r.spawns, now) ==
            Outcome(w.registry, snap, k, name, live, opts, replace, spawns, now)
  {
    var x := snap[k];
    var r := CheckRow(w, snap, k, name, opts, replace, live, spawns, now);
    assert snap[k..][1..] == snap[k + 1..];
    if replace {
      ReplacementsCons(snap[k..], name, live, opts, spawns, now);
    }
    if Dead(name, live)(x) {
      MarkDeadStop(w.registry, snap, k, name, live);
      if replace {
        var rec := NewWorkerRecord(x.queue, opts, spawns[0], now);
        var stoppedReg := SetStatus(w.registry, x.workerId, Stopped);
        MarkDeadAppend(stoppedReg, snap, k + 1, name, live, rec);
        ConcatAssoc(MarkDead(w.registry, snap, k, name, live), [rec],
                    Replacements(snap[k + 1..], name, live, opts, spawns[1..], now));
      }
    } else {
      MarkDeadSkip(w.registry, snap, k, name, live);
    }
  }

  /** The liveness loop over the rows counted at the start of the pass (`snap`, in table
      order, from index `k`): every counted row whose process is gone is marked stopped and,
      when `replace` holds, a new worker is started on that row's queue. */
  function Reconcile(w: World, snap: Registry, k: nat, name: string, opts: StartOptions,
                     replace: bool, live: set<int>, spawns: seq<Spawn>, now: int): (r: World)
    requires k <= |snap| <= |w.registry|
    requires UniqueIds(w.registry)
    requires forall j :: k <= j < |snap| ==> w.registry[j] == snap[j]
    requires FreshSpawns(w.registry, spawns)
    requires replace ==> |spawns| >= Count(snap[k..], Dead(name, live))
    ensures UniqueIds(r.registry)
    ensures r.channel == w.channel
    ensures r.registry == Outcome(w.registry, snap, k, name, live, opts, replace, spawns, now)
    decreases |snap| - k
  {
    if k == |snap| then
      assert MarkDead(w.registry, snap, k, name, live) == w.registry;
      assert Outcome(w.registry, snap, k, name, live, opts, replace, spawns, now) == w.registry;
      w
    else
      var c := CheckRow(w, snap, k, name, opts, replace, live, spawns, now);
      CheckRowOutcome(w, snap, k, name, opts, replace, live, spawns, now);
      Reconcile(c.world, snap, k + 1, name, opts, replace, live, c.spawns, now)
  }

  /** Marking the dead rows stopped removes exactly the dead rows from the fleet count. */
  lemma {:induction false} MarkDeadCount(reg: Registry, snap: Registry, k: nat, name: string,
                                         live: set<int>)
    requires k <= |snap| <= |reg|
    requires forall j :: k <= j < |snap| ==> reg[j] == snap[j]
    ensures Count(MarkDead(reg, snap, k, name, live), SupervisedBy(name))
            + Count(snap[k..], Dead(name, live))
         == Count(reg, SupervisedBy(name))
    decreases |snap| - k
  {
    if k == |snap| {
      assert MarkDead(reg, snap, k, name, live) == reg;
      assert snap[k..] == [];
    } else {
      MarkDeadCount(reg, snap, k + 1, name, live);
      CountCons(snap[k..], Dead(name, live));
      assert snap[k..][1..] == snap[k + 1..];
      var m1 := MarkDead(reg, snap, k + 1, name, live);
      if Dead(name, live)(snap[k]) {
        assert MarkDead(reg, snap, k, name, live) == m1[k := reg[k].(status := Stopped)];
        CountUpdate(m1, k, reg[k].(status := Stopped), SupervisedBy(name));
      } else {
        assert MarkDead(reg, snap, k, name, live) == m1;
      }
    }
  }


  // One pass of `supervise`.

  /** How a pass ends: normally, or with the division by zero of an empty queue list in the
      scale-up loop. Whatever the pass wrote before the error stays written. */
  datatype PassOutcome = Completed(world: World) | Crashed(world: World)

  /** The world after the pass's first step, `cleanupStaleWorkers()` with its default
      threshold. */
  function AfterCleanup(w: World, now: int, live: set<int>): World {
    World(CleanupStaleWorkers(w.registry, now, CleanupThreshold, live).registry, w.channel)
  }

  /** `c`: this supervisor's running and paused rows once cleanup has run. */
  function FleetSize(w: World, name: string, now: int, live: set<int>): nat {
    Count(AfterCleanup(w, now, live).registry, SupervisedBy(name))
  }

  /** The rows counted in `c` whose process is gone. */
  function DeadCount(w: World, name: string, live: set<int>, now: int): nat {
    Count(AfterCleanup(w, now, live).registry, Dead(name, live))
  }

  /** The number of scale-up starts: `min - c` when the fleet is short, else none. */
  function Shortfall(c: int, minProcesses: int): nat {
    if c < minProcesses then minProcesses - c else 0
  }

  lemma DeadWithinFleet(reg: Registry, name: string, live: set<int>)
    ensures Count(reg, Dead(name, live)) <= Count(reg, SupervisedBy(name))
  {
    CountMonotone(reg, Dead(name, live), SupervisedBy(name));
  }

  /** The rows the scale-up loop appends (none when nothing is short). */
  function ScaleUpRows(qs: seq<string>, opts: StartOptions, toStart: nat, spawns: seq<Spawn>,
                       now: int): (rows: seq<Worker>)
    requires toStart == 0 || |qs| > 0
    requires |spawns| >= toStart
    ensures |rows| == toStart
    ensures forall j :: 0 <= j < toStart ==>
              GetNextQueue(qs, j) == Some(rows[j].queue) && rows[j].workerId == spawns[j].workerId
              && rows[j].status == Running && rows[j].supervisor == opts.supervisor.GetOr(DefaultSupervisor)
  {
    if toStart == 0 then [] else NewRows(qs, opts, 0, toStart, spawns, now)
  }

  // The rest of a pass depends on the table only through `snap`, the table as cleanup left
  // it.

  /** Whether a pass over the cleaned table runs to completion: only an empty queue list with
      a fleet short of the minimum ends it early. */
  predicate Completes(snap: Registry, name: string, cfg: SupervisorConfig) {
    |Queues(cfg.queue)| > 0 || Count(snap, SupervisedBy(name)) >= cfg.minProcesses
  }

  predicate PassCompletes(w: World, name: string, cfg: SupervisorConfig, now: int,
                          live: set<int>) {
    Completes(AfterCleanup(w, now, live).registry, name, cfg)
  }

  /** The rows a completed pass's scale-up appends: `max(0, min - c)` running rows of this
      supervisor, the `j`-th on the next queue round-robin under the `j`-th spawned id. */
  function PassScaleUp(snap: Registry, name: string, cfg: SupervisorConfig, spawns: seq<Spawn>,
                       now: int): (rows: seq<Worker>)
    requires |spawns| >= cfg.minProcesses
    requires Completes(snap, name, cfg)
    ensures |rows| == Shortfall(Count(snap, SupervisedBy(name)), cfg.minProcesses)
    ensures forall j :: 0 <= j < |rows| ==>
              GetNextQueue(Queues(cfg.queue), j) == Some(rows[j].queue)
              && rows[j].workerId == spawns[j].workerId
              && rows[j].status == Running && rows[j].supervisor == name
  {
    ScaleUpRows(Queues(cfg.queue), Options(name, cfg),
                Shortfall(Count(snap, SupervisedBy(name)), cfg.minProcesses), spawns, now)
  }

  /** The rows a completed pass's liveness loop appends: when `c <= min`, one running row of
      this supervisor per dead counted row, under the spawned ids the scale-up left; none
      otherwise. */
  function PassReplacements(snap: Registry, name: string, cfg: SupervisorConfig,
                            live: set<int>, spawns: seq<Spawn>, now: int): (rows: seq<Worker>)
    requires |spawns| >= cfg.minProcesses
    ensures |rows| == if Count(snap, SupervisedBy(name)) <= cfg.minProcesses
                      then Count(snap, Dead(name, live)) else 0
    ensures Shortfall(Count(snap, SupervisedBy(name)), cfg.minProcesses) + |rows| <= |spawns|
    ensures forall j :: 0 <= j < |rows| ==> rows[j].status == Running && rows[j].supervisor == name
    ensures var toStart := Shortfall(Count(snap, SupervisedBy(name)), cfg.minProcesses);
            forall j :: toStart <= j < toStart + |rows| ==>
              rows[j - toStart].workerId == spawns[j].workerId
  {
    var c := Count(snap, SupervisedBy(name));
    var toStart := Shortfall(c, cfg.minProcesses);
    DeadWithinFleet(snap, name, live);
    if c <= cfg.minProcesses then
      var rows := Replacements(snap, name, live, Options(name, cfg), spawns[toStart..], now);
      assert forall j :: toStart <= j < toStart + |rows| ==> spawns[toStart..][j - toStart] == spawns[j];
      rows
    else []
  }

  /** The table a completed pass leaves, in closed form: the cleaned table with the dead
      counted rows stopped, then the scale-up rows, then the replacements. */
  function PassTable(snap: Registry, name: string, cfg: SupervisorConfig, live: set<int>,
                     spawns: seq<Spawn>, now: int): Registry
    requires |spawns| >= cfg.minProcesses
    requires Completes(snap, name, cfg)
  {
    MarkDead(snap + PassScaleUp(snap, name, cfg, spawns, now), snap, 0, name, live)
    + PassReplacements(snap, name, cfg, live, spawns, now)
  }

  /** Where each part of a completed pass's table sits: the cleaned rows in place under their
      ids, followed by the scale-up rows and then the replacements. */
  lemma PassTableLayout(snap: Registry, name: string, cfg: SupervisorConfig, live: set<int>,
                        spawns: seq<Spawn>, now: int)
    requires |spawns| >= cfg.minProcesses
    requires Completes(snap, name, cfg)
    ensures |snap| <= |PassTable(snap, name, cfg, live, spawns, now)|
    ensures forall i :: 0 <= i < |snap| ==>
              PassTable(snap, name, cfg, live, spawns, now)[i].workerId == snap[i].workerId
    ensures PassTable(snap, name, cfg, live, spawns, now)[|snap|..]
         == PassScaleUp(snap, name, cfg, spawns, now) + PassReplacements(snap, name, cfg, live, spawns, now)
  {
    var up := PassScaleUp(snap, name, cfg, spawns, now);
    var md := MarkDead(snap + up, snap, 0, name, live);
    MarkDeadTail(snap, name, live, up);
    SliceConcat(md, PassReplacements(snap, name, cfg, live, spawns, now), |snap|);
  }

  /** `supervise`: cleanup, count, scale up, then the liveness loop over the counted rows,
      which replaces dead workers only when the count taken before any start was at or below
      the minimum. The spawn oracle must supply at least `min_processes` fresh ids, which
      bounds the starts of one pass. */
  function Supervise(w: World, name: string, cfg: SupervisorConfig, now: int,
                     live: set<int>, spawns: seq<Spawn>): (r: PassOutcome)
    requires UniqueIds(w.registry)
    requires FreshSpawns(w.registry, spawns)
    requires |spawns| >= cfg.minProcesses
    ensures UniqueIds(r.world.registry)
    ensures r.world.channel == w.channel
    ensures r.Completed? <==> PassCompletes(w, name, cfg, now, live)
    ensures r.Crashed? ==> r.world == AfterCleanup(w, now, live)
    ensures r.Completed? ==>
              r.world.registry == PassTable(AfterCleanup(w, now, live).registry, name, cfg, live, spawns, now)
  {
    var qs := Queues(cfg.queue);
    var cleaned := AfterCleanup(w, now, live);
    CleanupKeepsIds(w.registry, now, CleanupThreshold, live);
    var snap := cleaned.registry;
    var c := Count(snap, SupervisedBy(name));
    var toStart := Shortfall(c, cfg.minProcesses);
    var opts := Options(name, cfg);
    if toStart > 0 && |qs| == 0 then Crashed(cleaned)
    else
      assert snap[0..] == snap;
      DeadWithinFleet(snap, name, live);
      var up := if toStart == 0 then cleaned else ScaleUp(cleaned, opts, qs, 0, toStart, spawns, now);
      assert up.registry == snap + PassScaleUp(snap, name, cfg, spawns, now);
      assert toStart == 0 ==> spawns[toStart..] == spawns;
      Completed(Reconcile(up, snap, 0, name, opts, c <= cfg.minProcesses, live, spawns[toStart..], now))
  }

  /** The fleet after a completed pass: exactly `min_processes` when the count `c` of the
      cleaned table was at or below the minimum (every dead row is replaced and the shortfall
      started), otherwise `c` less the dead rows, which are not replaced. */
  lemma PassFleetSize(snap: Registry, name: string, cfg: SupervisorConfig, live: set<int>,
                      spawns: seq<Spawn>, now: int)
    requires |spawns| >= cfg.minProcesses
    requires Completes(snap, name, cfg)
    ensures var c := Count(snap, SupervisedBy(name));
            var after := Count(PassTable(snap, name, cfg, live, spawns, now), SupervisedBy(name));
            (c <= cfg.minProcesses ==> after == cfg.minProcesses)
            && (c > cfg.minProcesses ==> after == c - Count(snap, Dead(name, live)))
  {
    var up := PassScaleUp(snap, name, cfg, spawns, now);
    var repl := PassReplacements(snap, name, cfg, live, spawns, now);
    CountConcat(snap, up, SupervisedBy(name));
    CountExtremes(up, SupervisedBy(name));
    assert snap[0..] == snap;
    MarkDeadCount(snap + up, snap, 0, name, live);
    CountConcat(MarkDead(snap + up, snap, 0, name, live), repl, SupervisedBy(name));
    CountExtremes(repl, SupervisedBy(name));
  }

  /** The number of workers a completed pass starts: `max(0, min - c)` for the scale-up,
      plus one per dead counted row when `c <= min`. */
  function PassStartCount(snap: Registry, name: string, cfg: SupervisorConfig,
                          live: set<int>): nat {
    var c := Count(snap, SupervisedBy(name));
    Shortfall(c, cfg.minProcesses)
    + if c <= cfg.minProcesses then Count(snap, Dead(name, live)) else 0
  }

  /** A completed pass keeps every cleaned row in place under its id and appends exactly
      `PassStartCount` rows, under the spawned ids in order. */
  lemma PassStarts(snap: Registry, name: string, cfg: SupervisorConfig, live: set<int>,
                   spawns: seq<Spawn>, now: int)
    requires |spawns| >= cfg.minProcesses
    requires Completes(snap, name, cfg)
    ensures PassStartCount(snap, name, cfg, live) <= |spawns|
    ensures |PassTable(snap, name, cfg, live, spawns, now)|
         == |snap| + PassStartCount(snap, name, cfg, live)
    ensures forall i :: 0 <= i < |snap| ==>
              PassTable(snap, name, cfg, live, spawns, now)[i].workerId == snap[i].workerId
    ensures forall j :: 0 <= j < PassStartCount(snap, name, cfg, live) ==>
              PassTable(snap, name, cfg, live, spawns, now)[|snap| + j].workerId
              == spawns[j].workerId
  {
    PassTableLayout(snap, name, cfg, live, spawns, now);
    var t := PassTable(snap, name, cfg, live, spawns, now);
    var up := PassScaleUp(snap, name, cfg, spawns, now);
    var repl := PassReplacements(snap, name, cfg, live, spawns, now);
    assert |up| + |repl| == PassStartCount(snap, name, cfg, live);
    forall j | 0 <= j < |up| + |repl| ensures t[|snap| + j].workerId == spawns[j].workerId {
      assert t[|snap| + j] == (up + repl)[j];
      if j >= |up| {
        assert (up + repl)[j] == repl[j - |up|];
      }
    }
  }

  /** The scale-up rows of a completed pass are running rows of this supervisor, the `j`-th
      on queue `j mod |queues|`. */
  lemma PassScaleUpQueues(snap: Registry, name: string, cfg: SupervisorConfig, live: set<int>,
                          spawns: seq<Spawn>, now: int, j: nat)
    requires |spawns| >= cfg.minProcesses
    requires Completes(snap, name, cfg)
    requires j < Shortfall(Count(snap, SupervisedBy(name)), cfg.minProcesses)
    ensures |snap| + j < |PassTable(snap, name, cfg, live, spawns, now)|
    ensures var row := PassTable(snap, name, cfg, live, spawns, now)[|snap| + j];
            && GetNextQueue(Queues(cfg.queue), j) == Some(row.queue)
            && row.status == Running && row.supervisor == name
  {
    PassTableLayout(snap, name, cfg, live, spawns, now);
    var t := PassTable(snap, name, cfg, live, spawns, now);
    assert t[|snap| + j] == t[|snap|..][j];
  }

  /** `max_processes` and `balance` are read from the configuration but change nothing in
      a pass. */
  lemma MaxAndBalanceUnused(w: World, name: string, cfg: SupervisorConfig, now: int,
                            live: set<int>, spawns: seq<Spawn>, maxProcesses: int,
                            balance: string)
    requires UniqueIds(w.registry) && FreshSpawns(w.registry, spawns)
    requires |spawns| >= cfg.minProcesses
    ensures Supervise(w, name, cfg.(maxProcesses := maxProcesses, balance := balance), now, live, spawns)
         == Supervise(w, name, cfg, now, live, spawns)
  {
    var other := cfg.(maxProcesses := maxProcesses, balance := balance);
    assert Options(name, other) == Options(name, cfg);
  }

  // The supervisor loop.

  /** Minimum spacing of the status line, in seconds. */
  const StatusInterval := 30

  datatype Throttle = Throttle(emit: bool, last: int)

  /** `outputStatus`: print when at least `StatusInterval` seconds have passed since the
      last line (the last-output time starts at 0), and remember when. */
  function OutputStatus(last: int, now: int): (t: Throttle)
    ensures t.emit <==> now >= last + StatusInterval
    ensures t.last == (if t.emit then now else last)
    ensures t.last >= last || !t.emit
  {
    if now - last >= StatusInterval then Throttle(true, now) else Throttle(false, last)
  }

  /** What one pass sees: the clock, the live pids and the ids the UUID generator yields. */
  datatype PassInput = PassInput(now: int, live: set<int>, spawns: seq<Spawn>)

  /** The loop's state: the shared world, the throttle's last-output time, the times at
      which a status line was printed, and the number of passes run. */
  datatype Supervision = Supervision(world: World, lastOutput: int, reports: seq<int>,
                                     passes: nat)

  /** Every id the UUID generator yields over the whole run, in order. */
  function AllSpawns(ps: seq<PassInput>): (r: seq<Spawn>)
    ensures |ps| > 0 ==> r == ps[0].spawns + AllSpawns(ps[1..])
    decreases |ps|
  {
    if |ps| == 0 then [] else ps[0].spawns + AllSpawns(ps[1..])
  }

  /** After a pass, the ids the generator yields later are still fresh. */
  lemma PassKeepsLaterSpawnsFresh(w: World, name: string, cfg: SupervisorConfig,
                                  p: PassInput, later: seq<Spawn>)
    requires UniqueIds(w.registry)
    requires FreshSpawns(w.registry, p.spawns + later)
    requires |p.spawns| >= cfg.minProcesses
    ensures FreshSpawns(w.registry, p.spawns)
    ensures FreshSpawns(Supervise(w, name, cfg, p.now, p.live, p.spawns).world.registry, later)
  {
    var all := p.spawns + later;
    var n := |p.spawns|;
    assert forall j :: 0 <= j < n ==> all[j] == p.spawns[j];
    assert forall j :: 0 <= j < |later| ==> all[n + j] == later[j];
    var t := Supervise(w, name, cfg, p.now, p.live, p.spawns).world.registry;
    var snap := AfterCleanup(w, p.now, p.live).registry;
    CleanupKeepsIds(w.registry, p.now, CleanupThreshold, p.live);
    if PassCompletes(w, name, cfg, p.now, p.live) {
      PassStarts(snap, name, cfg, p.live, p.spawns, p.now);
      forall j | 0 <= j < |later| ensures !Registered(t, later[j].workerId) {
        var y := later[j].workerId;
        assert !Registered(snap, all[n + j].workerId);
        forall i | 0 <= i < |t| ensures t[i].workerId != y {
          if i < |snap| {
            assert t[i].workerId == snap[i].workerId;
          } else {
            assert t[i].workerId == p.spawns[i - |snap|].workerId;
            assert all[i - |snap|].workerId != all[n + j].workerId;
          }
        }
      }
    } else {
      forall j | 0 <= j < |later| ensures !Registered(t, later[j].workerId) {
        assert !Registered(w.registry, all[n + j].workerId);
      }
    }
    forall a, b | 0 <= a < b < |later| ensures later[a].workerId != later[b].workerId {
      assert all[n + a].workerId != all[n + b].workerId;
    }
  }

  /** One iteration of `handle`'s loop: a pass, then the throttled status line. A pass that
      throws is caught and logged; the loop goes on with whatever the pass committed, and no
      status line is printed for it. */
  function Iterate(st: Supervision, name: string, cfg: SupervisorConfig, p: PassInput)
    : (r: Supervision)
    requires UniqueIds(st.world.registry)
    requires FreshSpawns(st.world.registry, p.spawns)
    requires |p.spawns| >= cfg.minProcesses
    ensures r.passes == st.passes + 1
    ensures UniqueIds(r.world.registry)
    ensures r.world == Supervise(st.world, name, cfg, p.now, p.live, p.spawns).world
    ensures r.reports == st.reports || r.reports == st.reports + [p.now]
    ensures r.reports != st.reports <==>
              PassCompletes(st.world, name, cfg, p.now, p.live) &&
              p.now >= st.lastOutput + StatusInterval
  {
    match Supervise(st.world, name, cfg, p.now, p.live, p.spawns)
    case Crashed(wd) => Supervision(wd, st.lastOutput, st.reports, st.passes + 1)
    case Completed(wd) =>
      var t := OutputStatus(st.lastOutput, p.now);
      Supervision(wd, t.last, if t.emit then st.reports + [p.now] else st.reports,
                  st.passes + 1)
  }

  /** Each pass's UUIDs are enough for the pass (see `Supervise`). */
  predicate EnoughSpawns(passes: seq<PassInput>, cfg: SupervisorConfig) {
    forall p :: 0 <= p < |passes| ==> |passes[p].spawns| >= cfg.minProcesses
  }

  /** The `while ($this->running)` loop over a finite prefix of its passes. */
  function Loop(st: Supervision, name: string, cfg: SupervisorConfig, passes: seq<PassInput>)
    : (r: Supervision)
    requires UniqueIds(st.world.registry)
    requires FreshSpawns(st.world.registry, AllSpawns(passes))
    requires EnoughSpawns(passes, cfg)
    ensures r.passes == st.passes + |passes|
    ensures UniqueIds(r.world.registry)
    ensures |st.reports| <= |r.reports| <= |st.reports| + |passes|
    ensures r.reports[..|st.reports|] == st.reports
    decreases |passes|
  {
    if |passes| == 0 then st
    else
      var p := passes[0];
      PassKeepsLaterSpawnsFresh(st.world, name, cfg, p, AllSpawns(passes[1..]));
      var next := Iterate(st, name, cfg, p);
      var r := Loop(next, name, cfg, passes[1..]);
      assert next.reports[..|st.reports|] == st.reports;
      PrefixTrans(st.reports, next.reports, r.reports);
      r
  }

  /** The throttle's invariant: status lines at least `StatusInterval` seconds apart, the
      first one no earlier than `StatusInterval` (the last-output time starts at 0), and the
      remembered time is that of the latest line. */
  predicate Throttled(st: Supervision) {
    && (forall i :: 0 < i < |st.reports| ==> st.reports[i] >= st.reports[i - 1] + StatusInterval)
    && (|st.reports| > 0 ==> st.reports[0] >= StatusInterval)
    && st.lastOutput == (if |st.reports| == 0 then 0 else st.reports[|st.reports| - 1])
  }

  lemma IterateThrottled(st: Supervision, name: string, cfg: SupervisorConfig, p: PassInput)
    requires UniqueIds(st.world.registry)
    requires FreshSpawns(st.world.registry, p.spawns)
    requires |p.spawns| >= cfg.minProcesses
    requires Throttled(st)
    ensures Throttled(Iterate(st, name, cfg, p))
  {
  }

  /** However the clock moves and whichever passes throw, the loop never prints two status
      lines less than `StatusInterval` seconds apart. */
  lemma {:induction false} LoopThrottled(st: Supervision, name: string, cfg: SupervisorConfig,
                                         passes: seq<PassInput>)
    requires UniqueIds(st.world.registry)
    requires FreshSpawns(st.world.registry, AllSpawns(passes))
    requires EnoughSpawns(passes, cfg)
    requires Throttled(st)
    ensures Throttled(Loop(st, name, cfg, passes))
    decreases |passes|
  {
    if |passes| > 0 {
      var p := passes[0];
      PassKeepsLaterSpawnsFresh(st.world, name, cfg, p, AllSpawns(passes[1..]));
      IterateThrottled(st, name, cfg, p);
      LoopThrottled(Iterate(st, name, cfg, p), name, cfg, passes[1..]);
    }
  }

  datatype SupervisorExit = ConfigMissing | Supervised(state: Supervision)

  /** `handle`: look the supervisor up by name; a missing configuration is reported and the
      command fails before any pass. Otherwise the loop starts from last-output time 0. */
  function Handle(configs: map<string, SupervisorConfig>, name: string, w: World,
                  passes: seq<PassInput>): (r: SupervisorExit)
    requires UniqueIds(w.registry)
    requires FreshSpawns(w.registry, AllSpawns(passes))
    requires name in configs ==> EnoughSpawns(passes, configs[name])
    ensures r.ConfigMissing? <==> name !in configs
    ensures r.Supervised? ==> r.state.passes == |passes| && UniqueIds(r.state.world.registry)
    ensures r.Supervised? ==> Throttled(r.state)
  {
    if name !in configs then ConfigMissing
    else
      var st := Supervision(w, 0, [], 0);
      LoopThrottled(st, name, configs[name], passes);
      Supervised(Loop(st, name, configs[name], passes))
  }
}
