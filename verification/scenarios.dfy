/** Whole-system consequences of how the supervisor, the manager and the worker process
    share the `watchtower_workers` table. */
module Scenarios {
  import opened Prelude
  import opened WorkerModel
  import opened Store
  import opened WorkerManager
  import opened WorkerRuntime
  import opened Supervisor

  /** A worker the supervisor starts under its own name re-registers itself at start-up with
      supervisor `default`, overwriting the row by id: unless the supervisor is itself named
      `default`, its own row stops counting towards its fleet. */
  lemma SelfRegistrationDropsSupervisor(w: World, queue: string, name: string,
                                        cfg: SupervisorConfig, spawn: Spawn, pid: int,
                                        t0: int, t1: int)
    requires UniqueIds(w.registry) && !Registered(w.registry, spawn.workerId)
    requires name != DefaultSupervisor
    ensures var started := StartWorker(w, queue, Options(name, cfg), spawn, t0);
            var reg := started.world.registry;
            var after := RegisterWorker(reg, spawn.workerId, queue, pid, t1);
            SupervisedBy(name)(Lookup(reg, spawn.workerId).value)
            && Lookup(after, spawn.workerId).value.supervisor == DefaultSupervisor
            && |after| == |reg|
            && Count(after, SupervisedBy(name)) + 1 == Count(reg, SupervisedBy(name))
  {
    var reg := StartWorker(w, queue, Options(name, cfg), spawn, t0).world.registry;
    var rec := NewWorkerRecord(queue, Options(name, cfg), spawn, t0);
    var n := |w.registry|;
    assert reg == w.registry + [rec];
    assert reg[n] == rec && reg[..n] == w.registry;
    LookupUnique(reg, n);
    var row := Worker(spawn.workerId, DefaultSupervisor, queue, Some(pid), Running, t1, Some(t1));
    RegisterOverwritesLast(reg, spawn.workerId, queue, pid, t1);
    CountSwapLast(w.registry, rec, row, SupervisedBy(name));
  }

  /** Registering under the id of the last row overwrites that row in place. */
  lemma RegisterOverwritesLast(reg: Registry, id: string, queue: string, pid: int, now: int)
    requires UniqueIds(reg) && |reg| > 0 && reg[|reg| - 1].workerId == id
    ensures RegisterWorker(reg, id, queue, pid, now)
         == reg[..|reg| - 1] + [Worker(id, DefaultSupervisor, queue, Some(pid), Running, now, Some(now))]
  {
    var n := |reg| - 1;
    var after := RegisterWorker(reg, id, queue, pid, now);
    var row := Lookup(after, id).value;
    forall i | 0 <= i < n ensures after[i] == reg[i] && after[i].workerId != id {
      assert reg[i].workerId != reg[n].workerId;
    }
    var j :| 0 <= j < |after| && after[j] == row;
    assert j == n;
    assert after == reg[..n] + [row];
  }

  /** When the count taken after cleanup is above the minimum, dead rows are stopped but not
      replaced, so enough deaths leave the fleet below `min_processes` after a completed
      pass. */
  lemma FleetCanDipBelowMinimum(w: World, name: string, cfg: SupervisorConfig, now: int,
                                live: set<int>, spawns: seq<Spawn>)
    requires |spawns| >= cfg.minProcesses
    requires PassCompletes(w, name, cfg, now, live)
    requires FleetSize(w, name, now, live) > cfg.minProcesses
    requires FleetSize(w, name, now, live) - DeadCount(w, name, live, now) < cfg.minProcesses
    ensures Count(PassTable(AfterCleanup(w, now, live).registry, name, cfg, live, spawns, now),
                  SupervisedBy(name)) < cfg.minProcesses
  {
    PassFleetSize(AfterCleanup(w, now, live).registry, name, cfg, live, spawns, now);
  }
}
