/** The topology entities a caller describes before any broker session exists. */
module Entities {
  import opened Wrappers

  /** Broker-defined declaration arguments (amqp.Table). The model never looks
      inside a table; it is only passed through to the declarer. */
  type Table = map<string, string>

  /** The identity of a `*Queue`: declarations and bindings that share a queue
      share its identity, and see each other's writes to its name. */
  type QueueId = nat

  datatype Queue = Queue(name: string, durable: bool, autoDelete: bool, exclusive: bool, args: Table)

  datatype Exchange = Exchange(name: string, kind: string, durable: bool, autoDelete: bool, args: Table)

  /** Binds the queue `queue` to `exchange` under each routing key of `keys`. */
  datatype QueueBinding = QueueBinding(queue: QueueId, exchange: Exchange, keys: Option<seq<string>>, args: Table)

  /** Binds exchange `destination` to exchange `source` under each routing key of `keys`. */
  datatype ExchangeBinding = ExchangeBinding(destination: Exchange, source: Exchange, keys: Option<seq<string>>, args: Table)

  /** The queues the caller owns, by identity: the only mutable state of the core. */
  type Heap = map<QueueId, Queue>

  /** `h'` holds the same queues as `h`, and a queue may differ only in its name. */
  ghost predicate OnlyNamesChanged(h: Heap, h': Heap) {
    && h'.Keys == h.Keys
    && forall id :: id in h ==> h'[id] == h[id].(name := h'[id].name)
  }
}
