/** The declarer: the four broker operations a declaration may issue. */
module Broker {
  import opened Wrappers
  import opened Entities

  /** Whatever diagnostic the declarer produced; the core never inspects it. */
  datatype Error = Error(reason: string)

  /** One call on the declarer, with exactly the arguments it was given. */
  datatype Call =
    | QueueDeclare(name: string, durable: bool, autoDelete: bool, exclusive: bool, noWait: bool, args: Table)
    | ExchangeDeclare(name: string, kind: string, durable: bool, autoDelete: bool, internal: bool, noWait: bool, args: Table)
    | QueueBind(name: string, key: string, exchange: string, noWait: bool, args: Table)
    | ExchangeBind(destination: string, key: string, source: string, noWait: bool, args: Table)

  /** The declarer's answer to a call: the name of the declared queue (only
      meaningful for `QueueDeclare`) and an error, if the call failed. */
  datatype Reply = Reply(declaredName: string, err: Option<Error>)

  /** The transport behind the declarer, seen as a response oracle. */
  type Declarer = Call -> Reply

  /** The policy every call of this core follows: it waits for the broker's
      confirmation, and an exchange it declares is never internal. */
  predicate Synchronous(call: Call) {
    && !call.noWait
    && (call.ExchangeDeclare? ==> !call.internal)
  }

  /** The call failed. */
  predicate Fails(c: Declarer, call: Call) {
    c(call).err.Some?
  }
}
