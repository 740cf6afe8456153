/** `WorkerManager`: the facade through which the supervisor and operators start workers,
    send them commands, reconcile stale rows and shut the fleet down. Process spawning is an
    oracle (`Spawn`: the fresh UUID and the pid observed after the 100 ms wait), and process
    liveness is the set of pids the operating system reports alive. */
module WorkerManager {
  import opened Prelude
  import opened Decimal
  import opened WorkerModel
  import opened ControlChannel
  import opened Store

  /** Default threshold of `cleanupStaleWorkers`, in seconds. */
  const CleanupThreshold := 60

  /** The `$options` array of `startWorker`; an absent key is `None`. */
  datatype StartOptions = StartOptions(
    supervisor: Option<string>,
    tries: Option<int>,
    timeout: Option<int>,
    memory: Option<int>,
    sleep: Option<int>)

  /** What the environment supplies for one start: a fresh UUID and the pid the launcher
      reports (null when the process is already gone). */
  datatype Spawn = Spawn(workerId: string, pid: Option<int>)

  datatype Started = Started(world: World, workerId: string)

  /** One `--name=value` argument when the option is set, nothing otherwise. */
  function Flag(name: string, v: Option<int>): (r: seq<string>)
    ensures |r| == if v.Some? then 1 else 0
    ensures v.Some? ==> r == ["--" + name + "=" + IntToString(v.value)]
  {
    match v
    case Some(n) => ["--" + name + "=" + IntToString(n)]
    case None => []
  }

  /** `buildWorkerCommand`: the fixed five-word prefix, then the tries, timeout, memory and
      sleep flags in that order, each present only when the option is set. */
  function BuildWorkerCommand(php: string, artisan: string, workerId: string, queue: string,
                              opts: StartOptions): (argv: seq<string>)
    ensures |argv| >= 5
    ensures argv[..5] == [php, artisan, "watchtower:worker", queue, "--worker-id=" + workerId]
    ensures argv[5..] == Flag("tries", opts.tries) + Flag("timeout", opts.timeout)
                         + Flag("memory", opts.memory) + Flag("sleep", opts.sleep)
    ensures |argv| == 5 + |Flag("tries", opts.tries)| + |Flag("timeout", opts.timeout)|
                        + |Flag("memory", opts.memory)| + |Flag("sleep", opts.sleep)|
  {
    var prefix := [php, artisan, "watchtower:worker", queue, "--worker-id=" + workerId];
    var flags := Flag("tries", opts.tries) + Flag("timeout", opts.timeout)
                 + Flag("memory", opts.memory) + Flag("sleep", opts.sleep);
    assert (prefix + flags)[..5] == prefix;
    assert (prefix + flags)[5..] == flags;
    prefix + flags
  }

  /** The row `startWorker` creates. */
  function NewWorkerRecord(queue: string, opts: StartOptions, spawn: Spawn, now: int): Worker {
    Worker(spawn.workerId, opts.supervisor.GetOr(DefaultSupervisor), queue, spawn.pid,
           Running, now, Some(now))
  }

  /** `startWorker`: exactly one new row under the fresh id, running, with `started_at` and
      `last_heartbeat` both `now`; the id is returned and the channel is untouched. */
  function StartWorker(w: World, queue: string, opts: StartOptions, spawn: Spawn, now: int)
    : (r: Started)
    requires UniqueIds(w.registry)
    requires !Registered(w.registry, spawn.workerId)
    ensures r.workerId == spawn.workerId
    ensures UniqueIds(r.world.registry)
    ensures r.world.registry == w.registry + [NewWorkerRecord(queue, opts, spawn, now)]
    ensures Lookup(r.world.registry, r.workerId) == Some(NewWorkerRecord(queue, opts, spawn, now))
    ensures r.world.channel == w.channel
    ensures opts.supervisor.None? ==> Lookup(r.world.registry, r.workerId).value.supervisor == "default"
    ensures forall x :: Registered(r.world.registry, x) <==> Registered(w.registry, x) || x == spawn.workerId
  {
    var reg := Insert(w.registry, NewWorkerRecord(queue, opts, spawn, now));
    assert forall x :: Registered(reg, x) ==> Registered(w.registry, x) || x == spawn.workerId by {
      forall x | Registered(reg, x) ensures Registered(w.registry, x) || x == spawn.workerId {
        var i :| 0 <= i < |reg| && reg[i].workerId == x;
        if i < |w.registry| { assert w.registry[i].workerId == x; }
      }
    }
    assert forall x :: Registered(w.registry, x) ==> Registered(reg, x) by {
      forall x | Registered(w.registry, x) ensures Registered(reg, x) {
        var i :| 0 <= i < |w.registry| && w.registry[i].workerId == x;
        assert reg[i].workerId == x;
      }
    }
    Started(World(reg, w.channel), spawn.workerId)
  }

  /** Sends a command and optimistically records the status it will lead to. */
  function CommandWorker(w: World, workerId: string, c: Command, s: WorkerStatus): (r: World)
    ensures Get(r.channel, CommandKey(workerId)) == Some(Token(c))
    ensures r.channel[CommandKey(workerId)].ttl == Some(CommandTtl)
    ensures ChannelUnchangedOutside(r.channel, w.channel, {CommandKey(workerId)})
    ensures |r.registry| == |w.registry|
    ensures forall i :: 0 <= i < |w.registry| && w.registry[i].workerId == workerId ==>
              r.registry[i] == w.registry[i].(status := s)
    ensures forall i :: 0 <= i < |w.registry| && w.registry[i].workerId != workerId ==>
              r.registry[i] == w.registry[i]
  {
    World(SetStatus(w.registry, workerId, s), SendCommand(w.channel, workerId, c))
  }

  /** `stopWorker`: `stop` in the worker's slot (expiry 300), its row marked stopped. */
  function StopWorker(w: World, workerId: string): (r: World)
    ensures Get(r.channel, CommandKey(workerId)) == Some("stop")
    ensures r.channel[CommandKey(workerId)].ttl == Some(300)
    ensures ChannelUnchangedOutside(r.channel, w.channel, {CommandKey(workerId)})
    ensures |r.registry| == |w.registry|
    ensures forall i :: 0 <= i < |w.registry| ==>
              r.registry[i] == if w.registry[i].workerId == workerId
                               then w.registry[i].(status := Stopped) else w.registry[i]
  {
    CommandWorker(w, workerId, Stop, Stopped)
  }

  /** `pauseWorker`: `pause` in the worker's slot, its row marked paused. */
  function PauseWorker(w: World, workerId: string): (r: World)
    ensures Get(r.channel, CommandKey(workerId)) == Some("pause")
    ensures r.channel[CommandKey(workerId)].ttl == Some(300)
    ensures ChannelUnchangedOutside(r.channel, w.channel, {CommandKey(workerId)})
    ensures |r.registry| == |w.registry|
    ensures forall i :: 0 <= i < |w.registry| ==>
              r.registry[i] == if w.registry[i].workerId == workerId
                               then w.registry[i].(status := Paused) else w.registry[i]
  {
    CommandWorker(w, workerId, Pause, Paused)
  }

  /** `resumeWorker`: `resume` in the worker's slot, its row marked running. */
  function ResumeWorker(w: World, workerId: string): (r: World)
    ensures Get(r.channel, CommandKey(workerId)) == Some("resume")
    ensures r.channel[CommandKey(workerId)].ttl == Some(300)
    ensures ChannelUnchangedOutside(r.channel, w.channel, {CommandKey(workerId)})
    ensures |r.registry| == |w.registry|
    ensures forall i :: 0 <= i < |w.registry| ==>
              r.registry[i] == if w.registry[i].workerId == workerId
                               then w.registry[i].(status := Running) else w.registry[i]
  {
    CommandWorker(w, workerId, Resume, Running)
  }

  /** Stopping a worker twice leaves the same channel and registry as stopping it once. */
  lemma StopWorkerIdempotent(w: World, workerId: string)
    ensures StopWorker(StopWorker(w, workerId), workerId) == StopWorker(w, workerId)
  {
    var once := StopWorker(w, workerId);
    var twice := StopWorker(once, workerId);
    assert twice.registry == once.registry;
    assert twice.channel == once.channel;
  }

  /** `isProcessRunning`: a null or zero pid is never running; otherwise ask the OS. */
  function IsProcessRunning(pid: Option<int>, live: set<int>): (b: bool)
    ensures b <==> pid.Some? && pid.value != 0 && pid.value in live
  {
    match pid
    case None => false
    case Some(p) => p != 0 && p in live
  }

  /** `isWorkerRunning`: false for a missing row or a null/zero pid, otherwise the
      liveness of the row's pid. */
  function IsWorkerRunning(reg: Registry, workerId: string, live: set<int>): (b: bool)
    ensures !Registered(reg, workerId) ==> !b
    ensures b ==> Lookup(reg, workerId).value.pid.Some?
    ensures forall i :: UniqueIds(reg) && 0 <= i < |reg| && reg[i].workerId == workerId ==>
              (b <==> IsProcessRunning(reg[i].pid, live))
  {
    assert forall i :: UniqueIds(reg) && 0 <= i < |reg| && reg[i].workerId == workerId ==>
             Lookup(reg, workerId) == Some(reg[i]) by {
      forall i | UniqueIds(reg) && 0 <= i < |reg| && reg[i].workerId == workerId {
        LookupUnique(reg, i);
      }
    }
    match Lookup(reg, workerId)
    case None => false
    case Some(row) => IsProcessRunning(row.pid, live)
  }

  /** A row `cleanupStaleWorkers` stops: stale, running or paused, and its pid not alive. */
  predicate CleanupCandidate(w: Worker, now: int, threshold: int, live: set<int>) {
    IsStale(w, now, threshold) && IsActive(w) && !IsProcessRunning(w.pid, live)
  }

  datatype Cleaned = Cleaned(registry: Registry, count: nat)

  /** `cleanupStaleWorkers(threshold)`: exactly the candidate rows become stopped, every other
      row (live pid, fresh heartbeat, already stopped) is left as it was, and the returned
      count is the number of rows changed. */
  function CleanupStaleWorkers(reg: Registry, now: int, threshold: int, live: set<int>)
    : (r: Cleaned)
    ensures |r.registry| == |reg|
    ensures forall i :: 0 <= i < |reg| && CleanupCandidate(reg[i], now, threshold, live) ==>
              r.registry[i] == reg[i].(status := Stopped)
    ensures forall i :: 0 <= i < |reg| && !CleanupCandidate(reg[i], now, threshold, live) ==>
              r.registry[i] == reg[i]
    ensures r.count == Count(reg, (w: Worker) => CleanupCandidate(w, now, threshold, live))
    ensures r.count <= |reg|
    decreases |reg|
  {
    if |reg| == 0 then Cleaned([], 0)
    else
      var rest := CleanupStaleWorkers(reg[1..], now, threshold, live);
      if CleanupCandidate(reg[0], now, threshold, live)
      then Cleaned([reg[0].(status := Stopped)] + rest.registry, rest.count + 1)
      else Cleaned([reg[0]] + rest.registry, rest.count)
  }

  /** Cleanup changes statuses only, so ids, the unique index and every other column stay. */
  lemma CleanupKeepsIds(reg: Registry, now: int, threshold: int, live: set<int>)
    requires UniqueIds(reg)
    ensures UniqueIds(CleanupStaleWorkers(reg, now, threshold, live).registry)
    ensures forall x :: Registered(CleanupStaleWorkers(reg, now, threshold, live).registry, x)
                        <==> Registered(reg, x)
  {
    var r := CleanupStaleWorkers(reg, now, threshold, live).registry;
    assert forall i :: 0 <= i < |reg| ==> r[i].workerId == reg[i].workerId;
    forall x | Registered(r, x) ensures Registered(reg, x) {
      var i :| 0 <= i < |r| && r[i].workerId == x;
      assert reg[i].workerId == x;
    }
    forall x | Registered(reg, x) ensures Registered(r, x) {
      var i :| 0 <= i < |reg| && reg[i].workerId == x;
      assert r[i].workerId == x;
    }
  }

  /** Running cleanup a second time at the same instant finds nothing more to do. */
  lemma CleanupIdempotent(reg: Registry, now: int, threshold: int, live: set<int>)
    ensures var once := CleanupStaleWorkers(reg, now, threshold, live);
            var twice := CleanupStaleWorkers(once.registry, now, threshold, live);
            twice.registry == once.registry && twice.count == 0
  {
    var once := CleanupStaleWorkers(reg, now, threshold, live);
    var twice := CleanupStaleWorkers(once.registry, now, threshold, live);
    assert forall i :: 0 <= i < |once.registry| ==>
             !CleanupCandidate(once.registry[i], now, threshold, live);
    assert twice.registry == once.registry;
    CountExtremes(once.registry, (w: Worker) => CleanupCandidate(w, now, threshold, live));
  }

  /** Stops each listed worker in turn, as the `foreach` of `terminateAllWorkers` does: the
      listed rows are stopped and no other row changes. */
  function StopAll(w: World, ids: seq<string>): (r: World)
    ensures |r.registry| == |w.registry|
    ensures forall i :: 0 <= i < |w.registry| ==>
              r.registry[i] == if w.registry[i].workerId in ids
                               then w.registry[i].(status := Stopped) else w.registry[i]
    decreases |ids|
  {
    if |ids| == 0 then w
    else
      var r := StopAll(StopWorker(w, ids[0]), ids[1..]);
      assert forall id :: id in ids <==> id == ids[0] || id in ids[1..];
      r
  }

  /** After `StopAll` every listed slot holds `stop` with expiry 300, and no key outside the
      listed slots is touched. */
  lemma {:induction false} StopAllChannel(w: World, ids: seq<string>)
    ensures forall id :: id in ids ==>
              CommandKey(id) in StopAll(w, ids).channel
              && StopAll(w, ids).channel[CommandKey(id)] == Entry("stop", Some(300))
    ensures ChannelUnchangedOutside(StopAll(w, ids).channel, w.channel,
                                    set id | id in ids :: CommandKey(id))
    decreases |ids|
  {
    if |ids| > 0 {
      var first := StopWorker(w, ids[0]);
      StopAllChannel(first, ids[1..]);
      assert forall id :: id in ids <==> id == ids[0] || id in ids[1..];
      assert (set id | id in ids :: CommandKey(id))
          == (set id | id in ids[1..] :: CommandKey(id)) + {CommandKey(ids[0])};
    }
  }

  /** The ids of the running and paused rows, in table order. */
  function ActiveIds(reg: Registry): (ids: seq<string>)
    ensures forall i :: 0 <= i < |reg| ==> (IsActive(reg[i]) ==> reg[i].workerId in ids)
    ensures forall id :: id in ids ==> exists i :: 0 <= i < |reg| && reg[i].workerId == id && IsActive(reg[i])
    decreases |reg|
  {
    if |reg| == 0 then []
    else
      var rest := ActiveIds(reg[1..]);
      assert forall id :: id in rest ==> exists i :: 0 <= i < |reg| && reg[i].workerId == id && IsActive(reg[i]) by {
        forall id | id in rest ensures exists i :: 0 <= i < |reg| && reg[i].workerId == id && IsActive(reg[i]) {
          var j :| 0 <= j < |reg[1..]| && reg[1..][j].workerId == id && IsActive(reg[1..][j]);
          assert reg[j + 1] == reg[1..][j];
        }
      }
      if IsActive(reg[0]) then [reg[0].workerId] + rest else rest
  }

  /** Every slot `StopAll` creates belongs to one of the stopped workers. */
  lemma StopAllNewKeys(w: World, ids: seq<string>, k: string)
    requires k in StopAll(w, ids).channel && k !in w.channel
    ensures exists id :: id in ids && k == CommandKey(id)
  {
    StopAllChannel(w, ids);
    var keys := set id | id in ids :: CommandKey(id);
    assert k in keys;
  }

  lemma TerminateRegistry(w: World)
    ensures var r := StopAll(w, ActiveIds(w.registry));
            forall i :: 0 <= i < |w.registry| ==> r.registry[i] == w.registry[i].(status := Stopped)
  {
    var ids := ActiveIds(w.registry);
    var r := StopAll(w, ids);
    forall i | 0 <= i < |w.registry|
      ensures r.registry[i] == w.registry[i].(status := Stopped)
    {
      if w.registry[i].workerId !in ids {
        assert !IsActive(w.registry[i]);
      }
    }
  }

  lemma TerminateChannel(w: World)
    ensures var r := StopAll(w, ActiveIds(w.registry));
            forall k :: k in r.channel && k !in w.channel ==>
              exists i :: 0 <= i < |w.registry| && IsActive(w.registry[i])
                          && k == CommandKey(w.registry[i].workerId)
  {
    var ids := ActiveIds(w.registry);
    var r := StopAll(w, ids);
    forall k | k in r.channel && k !in w.channel
      ensures exists i :: 0 <= i < |w.registry| && IsActive(w.registry[i])
                          && k == CommandKey(w.registry[i].workerId)
    {
      StopAllNewKeys(w, ids, k);
      var id :| id in ids && k == CommandKey(id);
      var i :| 0 <= i < |w.registry| && w.registry[i].workerId == id && IsActive(w.registry[i]);
    }
  }

  /** `terminateAllWorkers`: afterwards no row is running or paused, every previously
      running or paused worker has `stop` in its slot, and no other slot is created. */
  function TerminateAllWorkers(w: World): (r: World)
    ensures |r.registry| == |w.registry|
    ensures forall i :: 0 <= i < |r.registry| ==> !IsActive(r.registry[i])
    ensures forall i :: 0 <= i < |w.registry| ==>
              r.registry[i] == w.registry[i].(status := Stopped)
    ensures forall i :: 0 <= i < |w.registry| && IsActive(w.registry[i]) ==>
              Get(r.channel, CommandKey(w.registry[i].workerId)) == Some("stop")
    ensures forall k :: k in r.channel && k !in w.channel ==>
              exists i :: 0 <= i < |w.registry| && IsActive(w.registry[i])
                          && k == CommandKey(w.registry[i].workerId)
  {
    TerminateRegistry(w);
    TerminateChannel(w);
    StopAllChannel(w, ActiveIds(w.registry));
    StopAll(w, ActiveIds(w.registry))
  }
}
