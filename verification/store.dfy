/** The shared state every process of the system coordinates through: the worker
    registry (database) and the control channel (Redis). */
module Store {
  import opened WorkerModel
  import opened ControlChannel

  datatype World = World(registry: Registry, channel: Channel)

  /** The channel agrees with `before` on every key outside `keys`. */
  ghost predicate ChannelUnchangedOutside(after: Channel, before: Channel, keys: set<string>) {
    && (forall k :: k !in keys ==> (k in after <==> k in before))
    && (forall k :: k !in keys && k in before ==> after[k] == before[k])
  }
}
