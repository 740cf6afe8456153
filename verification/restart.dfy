/** `watchtower:restart`: signal every running worker (optionally only those on one queue)
    through its mailbox slot, then stamp the fleet-wide restart time. The registry is only
    read. */
module Restart {
  import opened Prelude
  import opened Decimal
  import opened WorkerModel
  import opened ControlChannel
  import opened Store
  import opened WorkerRuntime

  /** The rows the command selects: status `running`, and on `queue` when that option is
      truthy. Paused workers are never signalled. */
  function Targeted(queue: Option<string>): Worker -> bool {
    (w: Worker) => IsRunning(w) && (!Truthy(queue) || w.queue == queue.value)
  }

  /** `--force` picks `terminate`, otherwise `restart`. */
  function SignalFor(force: bool): Command {
    if force then Terminate else Restart
  }

  /** The mailbox slots of a set of rows. */
  function SlotsOf(ws: Registry): set<string> {
    set x | x in ws :: CommandKey(x.workerId)
  }

  /** Write `c` with the command expiry into the slot of every row of `ws`, in order. */
  function Signal(ch: Channel, ws: Registry, c: Command): (r: Channel)
    ensures forall x :: x in ws ==>
              Get(r, CommandKey(x.workerId)) == Some(Token(c)) &&
              r[CommandKey(x.workerId)].ttl == Some(CommandTtl)
    ensures ChannelUnchangedOutside(r, ch, SlotsOf(ws))
    decreases |ws|
  {
    if |ws| == 0 then ch
    else
      var r := Signal(SendCommand(ch, ws[0].workerId, c), ws[1..], c);
      assert forall x :: x in ws ==> x == ws[0] || x in ws[1..];
      assert SlotsOf(ws) == SlotsOf(ws[1..]) + {CommandKey(ws[0].workerId)};
      r
  }

  datatype Restarted = Restarted(world: World, count: nat)

  /** `handle`. With no matching worker nothing is written at all; otherwise every
      selected worker's slot gets the signal and `watchtower:restart_at` gets `now` in
      decimal, without expiry. The reported count is the number of selected rows. */
  function RestartWorkers(w: World, queue: Option<string>, force: bool, now: int)
    : (r: Restarted)
    ensures r.world.registry == w.registry
    ensures r.count == Count(w.registry, Targeted(queue))
    ensures r.count == 0 <==> forall x :: x in w.registry ==> !Targeted(queue)(x)
    ensures r.count == 0 ==> r.world == w
    ensures r.count > 0 ==>
              Get(r.world.channel, RestartAtKey) == Some(IntToString(now)) &&
              r.world.channel[RestartAtKey].ttl == None
    ensures forall x :: x in w.registry && Targeted(queue)(x) ==>
              Get(r.world.channel, CommandKey(x.workerId)) == Some(Token(SignalFor(force))) &&
              r.world.channel[CommandKey(x.workerId)].ttl == Some(CommandTtl)
    ensures ChannelUnchangedOutside(r.world.channel, w.channel,
                                    SlotsOf(Filter(w.registry, Targeted(queue))) + {RestartAtKey})
  {
    var selected := Filter(w.registry, Targeted(queue));
    if |selected| == 0 then
      Restarted(w, 0)
    else
      var ch := Signal(w.channel, selected, SignalFor(force));
      assert selected[0] in selected;
      forall x | x in selected ensures CommandKey(x.workerId) != RestartAtKey {
        RestartKeyIsNoCommandKey(x.workerId);
      }
      Restarted(World(w.registry, Set(ch, RestartAtKey, IntToString(now))), |selected|)
  }

  /** The stamp reads back as the time the command ran. */
  lemma RestartStampRoundTrip(w: World, queue: Option<string>, force: bool, now: int)
    requires exists x :: x in w.registry && Targeted(queue)(x)
    ensures var ch := RestartWorkers(w, queue, force, now).world.channel;
            RestartAtKey in ch && ParseInt(ch[RestartAtKey].value) == now
  {
    IntRoundTrip(now);
  }

  /** What a signalled worker does with the signal: at its next poll (with nothing else
      written to its slot in between, and memory under the limit) it deletes the slot and
      carries on exactly as before, whether the signal was `restart` or `terminate`. */
  lemma SignalledWorkerKeepsRunning(w: World, queue: Option<string>, force: bool, now: int,
                                    rt: Runtime, t: Tick)
    requires Valid(rt) && rt.phase == AtTop
    requires exists x :: x in w.registry && Targeted(queue)(x) && x.workerId == rt.workerId
    requires t.incoming.None?
    requires !MemoryExceeded(t.memoryBytes, rt.memoryLimit)
    ensures var after := RestartWorkers(w, queue, force, now).world;
            Step(rt, after, t).rt == rt &&
            Get(Step(rt, after, t).world.channel, CommandKey(rt.workerId)) == None
  {
    var after := RestartWorkers(w, queue, force, now).world;
    assert Deliver(after, rt.workerId, t.incoming) == after;
    RestartIsIgnored(rt, after, t, SignalFor(force));
  }
}
