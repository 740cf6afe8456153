/** `WorkerCommand` (`watchtower:worker`): the loop inside each worker process. Each pass
    polls the worker's mailbox slot, then either enters the pause sub-loop or sends a
    heartbeat, runs one job and checks memory. The loop is a fold over `Tick`s: one tick is
    one poll, and carries what the environment decides at that moment (the clock, a command
    another process has just written into the slot, memory usage, whether the job throws). */
module WorkerRuntime {
  import opened Prelude
  import opened Decimal
  import opened WorkerModel
  import opened ControlChannel
  import opened Store

  // Defaults from the command signature.
  const DefaultQueue := "default"
  const DefaultTries := 3
  const DefaultTimeout := 60
  const DefaultMemory := 128
  const DefaultSleep := 3
  const DefaultRest := 0

  /** The worker's arguments after option parsing; `workerId` is null when not given. */
  datatype WorkerArgs = WorkerArgs(
    queue: string,
    workerId: Option<string>,
    tries: int,
    timeout: int,
    memory: int,
    sleep: int,
    rest: int)

  predicate HasPrefix(s: string, p: string) {
    |p| <= |s| && s[..|p|] == p
  }

  /** The value of the first `--name=value` argument, if any. */
  function OptionValue(args: seq<string>, name: string): (r: Option<string>)
    ensures r.Some? ==> exists i :: 0 <= i < |args| && args[i] == "--" + name + "=" + r.value
    ensures r.None? <==> forall i :: 0 <= i < |args| ==> !HasPrefix(args[i], "--" + name + "=")
    decreases |args|
  {
    var p := "--" + name + "=";
    if |args| == 0 then None
    else if HasPrefix(args[0], p) then
      assert args[0] == p + args[0][|p|..];
      Some(args[0][|p|..])
    else
      var r := OptionValue(args[1..], name);
      assert r.Some? ==> exists i :: 0 <= i < |args| && args[i] == "--" + name + "=" + r.value by {
        if r.Some? {
          var i :| 0 <= i < |args[1..]| && args[1..][i] == "--" + name + "=" + r.value;
          assert args[i + 1] == args[1..][i];
        }
      }
      assert (forall i :: 0 <= i < |args| ==> !HasPrefix(args[i], p)) <==>
             (forall i :: 0 <= i < |args[1..]| ==> !HasPrefix(args[1..][i], p)) by {
        forall i | 0 < i < |args| ensures args[i] == args[1..][i - 1] { }
      }
      r
  }

  /** The first argument that starts with `--name=` is the one read. */
  lemma {:induction false} OptionValueFirst(args: seq<string>, name: string, i: nat)
    requires i < |args| && HasPrefix(args[i], "--" + name + "=")
    requires forall k :: 0 <= k < i ==> !HasPrefix(args[k], "--" + name + "=")
    ensures OptionValue(args, name) == Some(args[i][|"--" + name + "="|..])
    decreases i
  {
    if i > 0 {
      assert args[1..][i - 1] == args[i];
      OptionValueFirst(args[1..], name, i - 1);
    }
  }

  /** An option is looked up in a later stretch of arguments only when the earlier one
      does not set it. */
  lemma {:induction false} OptionValueConcat(a: seq<string>, b: seq<string>, name: string)
    ensures OptionValue(a + b, name) ==
              if OptionValue(a, name).Some? then OptionValue(a, name) else OptionValue(b, name)
    decreases |a|
  {
    if |a| == 0 {
      assert a + b == b;
    } else {
      assert (a + b)[0] == a[0] && (a + b)[1..] == a[1..] + b;
      OptionValueConcat(a[1..], b, name);
    }
  }

  /** The first argument that is not an option, if any; a lone `-` is an argument. */
  function Positional(args: seq<string>): (r: Option<string>)
    ensures r.Some? ==> r.value in args
    decreases |args|
  {
    if |args| == 0 then None
    else if |args[0]| > 1 && args[0][0] == '-' then Positional(args[1..])
    else Some(args[0])
  }

  /** An integer option: the `(int)` cast of its value, or the signature's default. */
  function IntOption(args: seq<string>, name: string, default: int): int {
    match OptionValue(args, name)
    case Some(v) => ParseInt(v)
    case None => default
  }

  /** Reads the arguments that follow `artisan watchtower:worker`, with the signature's
      defaults for everything that is absent. */
  function ParseWorkerArgs(args: seq<string>): (r: WorkerArgs)
    ensures OptionValue(args, "tries").None? ==> r.tries == DefaultTries
    ensures OptionValue(args, "memory").None? ==> r.memory == DefaultMemory
    ensures Positional(args).None? ==> r.queue == DefaultQueue
  {
    WorkerArgs(
      Positional(args).GetOr(DefaultQueue),
      OptionValue(args, "worker-id"),
      IntOption(args, "tries", DefaultTries),
      IntOption(args, "timeout", DefaultTimeout),
      IntOption(args, "memory", DefaultMemory),
      IntOption(args, "sleep", DefaultSleep),
      IntOption(args, "rest", DefaultRest))
  }

  /** Where the loop is: at the top of the main loop, inside `waitWhilePaused`, or finished. */
  datatype Phase = AtTop | Waiting | Exited

  /** The process's own state: its id, queue and memory limit, and the two flags. */
  datatype Runtime = Runtime(
    workerId: string,
    queue: string,
    memoryLimit: int,
    paused: bool,
    shouldStop: bool,
    phase: Phase)

  /** The flags as the loop structure constrains them at each phase. */
  predicate Valid(rt: Runtime) {
    match rt.phase
    case AtTop => !rt.paused && !rt.shouldStop
    case Waiting => rt.paused && !rt.shouldStop
    case Exited => rt.shouldStop
  }

  /** What the environment decides at one poll. */
  datatype Tick = Tick(now: int, incoming: Option<string>, memoryBytes: nat, jobThrows: bool)

  /** The externally visible steps of the loop, in order. */
  datatype Action =
    | Polled(consumed: Option<string>, pausedAfter: bool)
    | Heartbeat(at: int)
    | RanJob(threw: bool)
    | Slept
    | ShutDown

  /** `registerWorker`: upsert by worker id with supervisor `default`, status running and
      both timestamps `now`. There is at most one row per id afterwards. */
  function RegisterWorker(reg: Registry, workerId: string, queue: string, pid: int, now: int)
    : (r: Registry)
    requires UniqueIds(reg)
    ensures UniqueIds(r)
    ensures Lookup(r, workerId) == Some(Worker(workerId, DefaultSupervisor, queue, Some(pid),
                                              Running, now, Some(now)))
    ensures |reg| <= |r| <= |reg| + 1
    ensures forall i :: 0 <= i < |reg| && reg[i].workerId != workerId ==> r[i] == reg[i]
  {
    Upsert(reg, Worker(workerId, DefaultSupervisor, queue, Some(pid), Running, now, Some(now)))
  }

  datatype Checked = Checked(rt: Runtime, world: World, consumed: Option<string>)

  /** `checkForCommands`: read the slot; a null, empty or "0" value is no command and is left
      in place. Any other value is deleted, then `stop`, `pause` and `resume` take effect;
      every other value, `restart` and `terminate` included, is dropped without effect.
      Only this worker's slot and rows are touched. */
  function CheckForCommands(rt: Runtime, w: World): (r: Checked)
    ensures var v := Get(w.channel, CommandKey(rt.workerId));
            !Truthy(v) ==> r == Checked(rt, w, None)
    ensures var v := Get(w.channel, CommandKey(rt.workerId));
            Truthy(v) ==> r.consumed == v && Get(r.world.channel, CommandKey(rt.workerId)) == None
    ensures ChannelUnchangedOutside(r.world.channel, w.channel, {CommandKey(rt.workerId)})
    ensures r.consumed == Some("stop") ==>
              r.rt == rt.(shouldStop := true) && r.world.registry == w.registry
    ensures r.consumed == Some("pause") ==> r.rt == rt.(paused := true)
    ensures r.consumed == Some("resume") ==> r.rt == rt.(paused := false)
    ensures r.consumed.Some? && r.consumed.value !in {"stop", "pause", "resume"} ==>
              r.rt == rt && r.world.registry == w.registry
    ensures |r.world.registry| == |w.registry|
    ensures forall i :: 0 <= i < |w.registry| ==>
              r.world.registry[i] ==
                if w.registry[i].workerId != rt.workerId then w.registry[i]
                else if r.consumed == Some("pause") then w.registry[i].(status := Paused)
                else if r.consumed == Some("resume") then w.registry[i].(status := Running)
                else w.registry[i]
  {
    var key := CommandKey(rt.workerId);
    var v := Get(w.channel, key);
    if !Truthy(v) then Checked(rt, w, None)
    else
      var ch := Del(w.channel, key);
      match ParseCommand(v.value)
      case Some(Stop) => Checked(rt.(shouldStop := true), World(w.registry, ch), v)
      case Some(Pause) =>
        Checked(rt.(paused := true), World(SetStatus(w.registry, rt.workerId, Paused), ch), v)
      case Some(Resume) =>
        Checked(rt.(paused := false), World(SetStatus(w.registry, rt.workerId, Running), ch), v)
      case _ => Checked(rt, World(w.registry, ch), v)
  }

  /** `sendHeartbeat`: stamp this worker's rows with `now`. */
  function SendHeartbeat(w: World, workerId: string, now: int): (r: World)
    ensures r.channel == w.channel
    ensures |r.registry| == |w.registry|
    ensures forall i :: 0 <= i < |w.registry| ==>
              r.registry[i] == if w.registry[i].workerId == workerId
                               then w.registry[i].(lastHeartbeat := Some(now)) else w.registry[i]
  {
    World(SetHeartbeat(w.registry, workerId, now), w.channel)
  }

  /** `memoryExceeded`: usage in mebibytes (real division) at or above the limit. */
  function MemoryExceeded(usageBytes: nat, limitMb: int): (b: bool)
    ensures b <==> usageBytes >= limitMb * 1048576
  {
    (usageBytes as real) / 1024.0 / 1024.0 >= limitMb as real
  }

  /** `gracefulShutdown`: mark this worker's rows stopped and delete its slot. */
  function GracefulShutdown(w: World, workerId: string): (r: World)
    ensures Get(r.channel, CommandKey(workerId)) == None
    ensures ChannelUnchangedOutside(r.channel, w.channel, {CommandKey(workerId)})
    ensures |r.registry| == |w.registry|
    ensures forall i :: 0 <= i < |w.registry| ==>
              r.registry[i] == if w.registry[i].workerId == workerId
                               then w.registry[i].(status := Stopped) else w.registry[i]
  {
    World(SetStatus(w.registry, workerId, Stopped), Del(w.channel, CommandKey(workerId)))
  }

  /** Another process writes a raw value into this worker's slot with the command expiry. */
  function Deliver(w: World, workerId: string, incoming: Option<string>): (r: World)
    ensures r.registry == w.registry
    ensures incoming.Some? ==> Get(r.channel, CommandKey(workerId)) == incoming
    ensures incoming.None? ==> r == w
    ensures ChannelUnchangedOutside(r.channel, w.channel, {CommandKey(workerId)})
  {
    match incoming
    case None => w
    case Some(v) => World(w.registry, SetWithExpiry(w.channel, CommandKey(workerId), v, CommandTtl))
  }

  datatype Stepped = Stepped(rt: Runtime, world: World, actions: seq<Action>)

  /** One poll of the loop and everything up to the next poll. */
  function Step(rt: Runtime, w: World, t: Tick): (r: Stepped)
    requires Valid(rt) && rt.phase != Exited
    ensures Valid(r.rt)
    ensures r.rt.workerId == rt.workerId && r.rt.memoryLimit == rt.memoryLimit
  {
    var c := CheckForCommands(rt, Deliver(w, rt.workerId, t.incoming));
    match rt.phase
    case AtTop =>
      if c.rt.paused then
        Stepped(c.rt.(phase := Waiting), c.world, [Polled(c.consumed, true)])
      else
        var beat := SendHeartbeat(c.world, rt.workerId, t.now);
        var acts := [Polled(c.consumed, false), Heartbeat(t.now), RanJob(t.jobThrows)];
        if c.rt.shouldStop || MemoryExceeded(t.memoryBytes, rt.memoryLimit) then
          Stepped(c.rt.(shouldStop := true, phase := Exited),
                  GracefulShutdown(beat, rt.workerId), acts + [ShutDown])
        else
          Stepped(c.rt, beat, acts)
    case Waiting =>
      var beat := SendHeartbeat(c.world, rt.workerId, t.now);
      var acts := [Slept, Polled(c.consumed, c.rt.paused), Heartbeat(t.now)];
      if c.rt.shouldStop then
        Stepped(c.rt.(phase := Exited), GracefulShutdown(beat, rt.workerId), acts + [ShutDown])
      else if !c.rt.paused then
        Stepped(c.rt.(phase := AtTop), beat, acts)
      else
        Stepped(c.rt, beat, acts)
  }

  datatype Ran = Ran(rt: Runtime, world: World, actions: seq<Action>)

  /** The main `while (! $this->shouldStop)` loop over the ticks the environment supplies;
      ticks after the loop has exited are not consumed. */
  function Run(rt: Runtime, w: World, ticks: seq<Tick>): (r: Ran)
    requires Valid(rt)
    ensures Valid(r.rt)
    ensures r.rt.workerId == rt.workerId
    decreases |ticks|
  {
    if |ticks| == 0 || rt.phase == Exited then Ran(rt, w, [])
    else
      var s := Step(rt, w, ticks[0]);
      var rest := Run(s.rt, s.world, ticks[1..]);
      Ran(rest.rt, rest.world, s.actions + rest.actions)
  }

  /** `handle`: take the given worker id or a generated one, register, then loop. */
  function Handle(args: WorkerArgs, generatedId: string, pid: int, now: int, w: World,
                  ticks: seq<Tick>): (r: Ran)
    requires UniqueIds(w.registry)
    ensures r.rt.workerId == args.workerId.GetOr(generatedId)
  {
    var id := args.workerId.GetOr(generatedId);
    var reg := RegisterWorker(w.registry, id, args.queue, pid, now);
    Run(Runtime(id, args.queue, args.memory, false, false, AtTop), World(reg, w.channel), ticks)
  }

  // Properties of the loop.

  /** Every job run is immediately preceded by a heartbeat, which is immediately preceded by
      a poll after which the worker was not paused. */
  ghost predicate JobsGuarded(acts: seq<Action>) {
    forall i :: 0 <= i < |acts| && acts[i].RanJob? ==>
      i >= 2 && acts[i - 1].Heartbeat? && acts[i - 2].Polled? && !acts[i - 2].pausedAfter
  }

  lemma JobsGuardedConcat(a: seq<Action>, b: seq<Action>)
    requires JobsGuarded(a) && JobsGuarded(b)
    ensures JobsGuarded(a + b)
  {
    var ab := a + b;
    forall i | 0 <= i < |ab| && ab[i].RanJob?
      ensures i >= 2 && ab[i - 1].Heartbeat? && ab[i - 2].Polled? && !ab[i - 2].pausedAfter
    {
      if i >= |a| {
        assert b[i - |a|].RanJob?;
      } else {
        assert a[i].RanJob?;
      }
    }
  }

  /** One step runs at most one job, never while paused, and only after a heartbeat. The
      pause sub-loop only sleeps, polls and beats. */
  lemma StepJobsGuarded(rt: Runtime, w: World, t: Tick)
    requires Valid(rt) && rt.phase != Exited
    ensures JobsGuarded(Step(rt, w, t).actions)
    ensures rt.phase == Waiting ==> forall a :: a in Step(rt, w, t).actions ==> !a.RanJob?
    ensures Step(rt, w, t).rt.phase == Waiting ==> forall a :: a in Step(rt, w, t).actions ==> !a.RanJob?
  {
    var c := CheckForCommands(rt, Deliver(w, rt.workerId, t.incoming));
    var acts := Step(rt, w, t).actions;
    if rt.phase == AtTop && !c.rt.paused {
      var ran := [Polled(c.consumed, false), Heartbeat(t.now), RanJob(t.jobThrows)];
      assert acts == ran || acts == ran + [ShutDown];
      assert Step(rt, w, t).rt.phase != Waiting;
    } else {
      assert forall a :: a in acts ==> !a.RanJob?;
    }
  }

  /** Over any number of polls, no job runs without a heartbeat just before it and an
      unpaused poll just before that. */
  lemma {:induction false} RunJobsGuarded(rt: Runtime, w: World, ticks: seq<Tick>)
    requires Valid(rt)
    ensures JobsGuarded(Run(rt, w, ticks).actions)
    decreases |ticks|
  {
    if |ticks| > 0 && rt.phase != Exited {
      var s := Step(rt, w, ticks[0]);
      StepJobsGuarded(rt, w, ticks[0]);
      RunJobsGuarded(s.rt, s.world, ticks[1..]);
      JobsGuardedConcat(s.actions, Run(s.rt, s.world, ticks[1..]).actions);
    }
  }

  /** A job that throws is reported and nothing else: the loop continues exactly as if the
      job had succeeded. */
  lemma JobExceptionIsContained(rt: Runtime, w: World, t: Tick)
    requires Valid(rt) && rt.phase != Exited
    ensures Step(rt, w, t.(jobThrows := true)).rt == Step(rt, w, t.(jobThrows := false)).rt
    ensures Step(rt, w, t.(jobThrows := true)).world == Step(rt, w, t.(jobThrows := false)).world
  {
  }

  /** Memory at or above the limit after a job ends the loop in that same pass. */
  lemma MemoryLimitStops(rt: Runtime, w: World, t: Tick)
    requires Valid(rt) && rt.phase == AtTop
    requires t.memoryBytes >= rt.memoryLimit * 1048576
    requires !CheckForCommands(rt, Deliver(w, rt.workerId, t.incoming)).rt.paused
    ensures Step(rt, w, t).rt.phase == Exited
    ensures RanJob(t.jobThrows) in Step(rt, w, t).actions
  {
  }

  /** A step touches only this worker's slot and this worker's rows. */
  lemma StepIsolated(rt: Runtime, w: World, t: Tick)
    requires Valid(rt) && rt.phase != Exited
    ensures ChannelUnchangedOutside(Step(rt, w, t).world.channel, w.channel,
                                    {CommandKey(rt.workerId)})
    ensures |Step(rt, w, t).world.registry| == |w.registry|
    ensures forall i :: 0 <= i < |w.registry| && w.registry[i].workerId != rt.workerId ==>
              Step(rt, w, t).world.registry[i] == w.registry[i]
  {
  }

  /** Leaving the loop marks this worker's rows stopped and empties its slot. */
  lemma ExitShutsDown(rt: Runtime, w: World, t: Tick)
    requires Valid(rt) && rt.phase != Exited
    requires Step(rt, w, t).rt.phase == Exited
    ensures Get(Step(rt, w, t).world.channel, CommandKey(rt.workerId)) == None
    ensures forall i :: 0 <= i < |w.registry| && w.registry[i].workerId == rt.workerId ==>
              Step(rt, w, t).world.registry[i].status == Stopped
    ensures Step(rt, w, t).actions[|Step(rt, w, t).actions| - 1] == ShutDown
  {
  }

  /** A `stop` found at the top of the loop still lets that pass beat and run its job; the
      loop then ends. */
  lemma StopAtTopFinishesPass(rt: Runtime, w: World, t: Tick)
    requires Valid(rt) && rt.phase == AtTop
    requires Get(Deliver(w, rt.workerId, t.incoming).channel, CommandKey(rt.workerId)) == Some("stop")
    ensures Step(rt, w, t).actions
         == [Polled(Some("stop"), false), Heartbeat(t.now), RanJob(t.jobThrows), ShutDown]
    ensures Step(rt, w, t).rt.phase == Exited
  {
  }

  /** `restart` and `terminate` are consumed and ignored: the worker keeps looping. */
  lemma RestartIsIgnored(rt: Runtime, w: World, t: Tick, c: Command)
    requires Valid(rt) && rt.phase == AtTop
    requires c == Restart || c == Terminate
    requires Get(Deliver(w, rt.workerId, t.incoming).channel, CommandKey(rt.workerId)) == Some(Token(c))
    requires !MemoryExceeded(t.memoryBytes, rt.memoryLimit)
    ensures Step(rt, w, t).rt == rt
    ensures Get(Step(rt, w, t).world.channel, CommandKey(rt.workerId)) == None
  {
  }
}
