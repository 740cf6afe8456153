/** The control channel: the shared Redis key space used as a one-slot mailbox per worker
    (`watchtower:worker:<id>:command`) plus the fleet-wide `watchtower:restart_at` stamp.
    Time-to-live values are recorded; expiry itself is not modelled. */
module ControlChannel {
  import opened Prelude

  /** A stored value and the expiry (seconds) attached to it, if any. */
  datatype Entry = Entry(value: string, ttl: Option<nat>)

  type Channel = map<string, Entry>

  /** Expiry given to every command written to a worker's slot. */
  const CommandTtl: nat := 300

  const KeyPrefix := "watchtower:worker:"
  const KeySuffix := ":command"
  const RestartAtKey := "watchtower:restart_at"

  /** The closed set of control commands; the channel carries their tokens. */
  datatype Command = Stop | Pause | Resume | Restart | Terminate

  function Token(c: Command): string {
    match c
    case Stop => "stop"
    case Pause => "pause"
    case Resume => "resume"
    case Restart => "restart"
    case Terminate => "terminate"
  }

  /** The command a stored token names, compared exactly as the worker's `switch` does. */
  function ParseCommand(s: string): (r: Option<Command>)
    ensures r.Some? ==> Token(r.value) == s
    ensures forall c: Command :: Token(c) == s ==> r == Some(c)
  {
    if s == "stop" then Some(Stop)
    else if s == "pause" then Some(Pause)
    else if s == "resume" then Some(Resume)
    else if s == "restart" then Some(Restart)
    else if s == "terminate" then Some(Terminate)
    else None
  }

  /** The key of a worker's mailbox slot. */
  function CommandKey(workerId: string): string {
    KeyPrefix + workerId + KeySuffix
  }

  /** Distinct workers have distinct mailbox slots. */
  lemma CommandKeyInjective(a: string, b: string)
    ensures CommandKey(a) == CommandKey(b) ==> a == b
  {
    if CommandKey(a) == CommandKey(b) {
      var n := |KeyPrefix|;
      assert |a| == |b|;
      assert a == CommandKey(a)[n..n + |a|];
      assert b == CommandKey(b)[n..n + |b|];
    }
  }

  /** No worker's mailbox slot is the fleet-wide restart stamp. */
  lemma RestartKeyIsNoCommandKey(workerId: string)
    ensures CommandKey(workerId) != RestartAtKey
  {
    assert CommandKey(workerId)[11] == 'w';
    assert RestartAtKey[11] == 'r';
  }

  /** Redis GET: the stored value, or null. */
  function Get(ch: Channel, key: string): Option<string> {
    if key in ch then Some(ch[key].value) else None
  }

  /** Redis SET (which clears any expiry). */
  function Set(ch: Channel, key: string, value: string): (r: Channel)
    ensures Get(r, key) == Some(value) && r[key].ttl == None
    ensures forall k :: k != key ==> Get(r, k) == Get(ch, k)
  {
    ch[key := Entry(value, None)]
  }

  /** Redis SET followed by EXPIRE on the same key. */
  function SetWithExpiry(ch: Channel, key: string, value: string, ttl: nat): (r: Channel)
    ensures Get(r, key) == Some(value) && r[key].ttl == Some(ttl)
    ensures forall k :: k != key ==> (k in r <==> k in ch)
    ensures forall k :: k != key && k in ch ==> r[k] == ch[k]
  {
    ch[key := Entry(value, Some(ttl))]
  }

  /** Redis DEL. */
  function Del(ch: Channel, key: string): (r: Channel)
    ensures Get(r, key) == None
    ensures forall k :: k != key ==> (k in r <==> k in ch)
    ensures forall k :: k != key && k in ch ==> r[k] == ch[k]
  {
    ch - {key}
  }

  /** `WorkerManager::sendCommand`: write the command's token into the worker's slot with
      the standard expiry, replacing whatever was there. */
  function SendCommand(ch: Channel, workerId: string, c: Command): (r: Channel)
    ensures Get(r, CommandKey(workerId)) == Some(Token(c))
    ensures r[CommandKey(workerId)].ttl == Some(CommandTtl)
    ensures forall k :: k != CommandKey(workerId) ==> (k in r <==> k in ch)
    ensures forall k :: k != CommandKey(workerId) && k in ch ==> r[k] == ch[k]
  {
    SetWithExpiry(ch, CommandKey(workerId), Token(c), CommandTtl)
  }

  /** The slot holds one command: a second send before the worker polls overwrites the
      first (last write wins), so the earlier command is never observed. */
  lemma LastWriteWins(ch: Channel, workerId: string, first: Command, second: Command)
    ensures SendCommand(SendCommand(ch, workerId, first), workerId, second)
         == SendCommand(ch, workerId, second)
  {
  }

  /** PHP truthiness of a nullable string: null, "" and "0" are false. */
  predicate Truthy(v: Option<string>) {
    v.Some? && v.value != "" && v.value != "0"
  }
}
