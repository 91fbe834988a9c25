# Topology declarations of the cony AMQP client, in Dafny

cony describes an AMQP broker's topology (queues, exchanges, and the bindings
between them) as a list of *declarations*. A declaration is a value built
once. It can be invoked many times against a *declarer*, which is the
channel of the current broker session, for example after every reconnect.
There are four constructors:

- `DeclareQueue` captures the queue's name when it is built. Each time it is
  invoked it resets the queue's name to that captured name, declares the
  queue, and writes the name the broker returned back into the shared queue.
- `DeclareExchange` makes one pass-through `ExchangeDeclare` call.
- `DeclareQueueBinding` and `DeclareExchangeBinding` bind once under the
  default key `"#.#"` when the key list is nil. Otherwise they make one bind
  per key, in order, and stop at the first error.

Every call passes `noWait = false`. Every exchange declaration passes
`internal = false`.

The model is functional:

- `Entities` holds the entity descriptions. A `*Queue` shared between a queue
  declaration and later bindings becomes a `QueueId` into a `Heap` of queues.
  Only a queue's name is ever written.
- `Broker` holds the declarer. It is a pure response oracle `Call -> Reply`.
  `Call` records each of the four operations with all of its arguments.
- `Declarations` holds the four constructors as a tagged union `Declaration`
  and `Exec`, which invokes one declaration. `Exec` returns an `Outcome`: the
  trace of calls made, the heap afterwards, and the error returned. Go's nil
  key slice is `None`; a present slice, even an empty one, is `Some(keys)`.
  The binding loop is given twice: as the recursive `BindEach`, and as the
  `while` loop `BindKeys`, which is proved to behave the same. Both are
  related to `FailFast`, a loop-free statement of the fail-fast discipline.
- `Setup` runs a list of declarations in order on one declarer (`RunAll`),
  passing the heap from each declaration to the next and stopping at the
  first error. The run is written once, generically, over a step function
  (`Run`). Its invariants are proved for any step that keeps them, and then
  for the declarer's step `Invoke(c)`, from what one `Exec` keeps.
- `Wrappers` holds the `Option` type.
- `Properties` holds the properties that span several invocations.

## Model

| member | source | states |
|---|---|---|
| Declarations.DeclareQueue | declaration.go:17-18 | building a queue declaration issues no call; it holds the queue by identity and the queue's name as it is at construction |
| Declarations.DeclareExchange | declaration.go:36 | building an exchange declaration issues no call; it captures the exchange description and names no queue |
| Declarations.DeclareQueueBinding | declaration.go:50 | building a queue binding issues no call; it captures the binding, whose queue is held by identity, so its name is not read yet |
| Declarations.DeclareExchangeBinding | declaration.go:68 | building an exchange binding issues no call; it captures the binding and names no queue |
| Declarations.ExecQueue | declaration.go:16-33 | an invocation makes exactly one QueueDeclare call; it carries the name captured at construction, not the queue's current name, plus the queue's own durable/autoDelete/exclusive/args and noWait false; afterwards the queue's name is the one the declarer returned, no other queue and no other field changes, and the declarer's error is returned unchanged |
| Declarations.ExecExchange | declaration.go:35-47 | an exchange declaration makes exactly one ExchangeDeclare call with the exchange's name, kind, durable, autoDelete and args, internal false and noWait false; it writes no state and returns that call's error |
| Declarations.BindEach | declaration.go:58-64 | the binding loop over a present key list is fail-fast: its calls are a prefix of one bind per key in key order, every call but the last succeeded, and the result is no error exactly when every key was bound successfully, otherwise the failing call's own error |
| Declarations.BindKeys | declaration.go:58-64 | the loop as written (one bind per key, return at the first error, nil after the loop) is fail-fast and makes the same calls and returns the same error as BindEach |
| Declarations.FailFastUnique | declaration.go:58-64 | the fail-fast rule leaves no freedom: given the declarer's answers, only one trace and one error satisfy it |
| Declarations.ExecBinding | declaration.go:54-64 | a nil key list makes exactly one bind under "#.#" and returns its error; a present key list follows the fail-fast rule over the keys; no state is written |
| Declarations.ExecQueueBinding | declaration.go:49-66 | every call is a QueueBind carrying the queue's name as it is at invocation time, the exchange's name and the binding's args; a nil key list binds once under "#.#"; a present key list binds key by key and stops at the first error |
| Declarations.ExecExchangeBinding | declaration.go:68-82 | every call is an ExchangeBind with the destination exchange first and the source exchange third; nil keys bind once under "#.#"; present keys bind key by key and stop at the first error |
| Declarations.ExecInvariants | declaration.go:5-14 | invoking any declaration changes at most the name of its own queue, and only when it is a queue declaration; every call it makes has noWait false, and an exchange declare has internal false; an error it returns is its last call's error, unchanged |
| Setup.PassOnlyRenames | declaration.go:28-30 | a pass of declarations run in order changes nothing but queue names: no queue appears or disappears, and no other field changes |
| Setup.PassSynchronous | declaration.go:21-75 | no call of a pass has noWait set, and no exchange declaration of a pass has internal set |
| Setup.PassErrorIsLastCall | declaration.go:31-77 | an error a pass returns is the error its last call returned, unchanged |
| Setup.RunAllSplit | declaration.go:5-6 | running two lists back to back is running the first list, then (if it succeeded) the second on the queues the first left behind |
| Setup.NamePersists | declaration.go:28-30 | in a pass with no declaration of queue q, q keeps its name, because only a queue's own declaration writes its name |
| Properties.InvocationIgnoresCurrentName | declaration.go:18-21 | because the name is reset first, an invocation gives the same outcome whatever had been written to the queue's name, and it always declares the captured name |
| Properties.ReconnectRequestsOriginalName | declaration.go:17-21 | invoking the same queue declaration on a second session, after a first session wrote its own assigned name back, declares the originally captured name again and behaves as if the first run never happened |
| Properties.RedeclareIsIdempotent | declaration.go:17-31 | invoking a queue declaration twice against the same declarer gives the same outcome as invoking it once |
| Properties.NameWrittenBack | declaration.go:21-31 | after a queue declaration the queue's name is the name the declarer returned, whether or not it also returned an error; that error is returned unchanged and nothing else in the heap changes |
| Properties.EchoKeepsQueue | declaration.go:21-31 | against a declarer that confirms the requested name without error, a queue declaration leaves the queues exactly as they were and returns no error |
| Properties.EmptyKeysBindNothing | declaration.go:58-64 | a present but empty key list makes no call and returns no error, unlike a nil one |
| Properties.SecondKeyFails | declaration.go:58-63 | with keys "a", "b", "c", a successful "a" and a failing "b", exactly the binds for "a" and "b" are made and b's error is returned |
| Properties.BindEachMirrors | declaration.go:74-79 | the exchange-binding loop makes the calls of the queue-binding loop with each QueueBind turned into the matching ExchangeBind, and returns the same error, whenever the declarer answers both alike |
| Properties.ExchangeBindingMirrorsQueueBinding | declaration.go:68-82 | an exchange binding behaves as the queue binding with the destination in the queue's place and the source in the exchange's place, for nil and present key lists alike |
| Properties.DeclaredNameSurvives | declaration.go:18-30 | a pass on any queues that starts with a declaration of queue q (whatever name it captured) and continues with declarations that do not redeclare q first declares the captured name; afterwards q carries the name the declarer returned for that call, whether or not the pass failed |
| Properties.BindingSeesDeclaredName | declaration.go:18-59 | in a pass on any queues of a queue declaration (whatever name it captured), other declarations, and a binding on that queue, the first call declares the captured name, and when the part before the binding succeeded every bind carries the name the declarer returned for the queue, because the binding reads the name when it runs and not when it is built |
| Properties.ReconnectBindingSeesNewName | declaration.go:17-59 | a pass built once is run on a first session and then on a second session, on the queues the first left behind; the second pass declares the originally captured name again, and its binds carry the name the second session returned |
| Properties.OrdersScenario | declaration.go:17-65 | declaring exchange "ex1" (topic), then a queue with an empty name that the broker names "amq.gen-XYZ", then a binding under "orders.*" makes three calls, and the third is QueueBind("amq.gen-XYZ", "orders.*", "ex1") |

## Left out

- The transport behind the declarer (the `amqp.Channel`, frames, network round trips) is an abstract oracle. The oracle answers each call from its arguments alone, so two identical calls in one session get the same answer.
- With the real channel, a failed `QueueDeclare` returns an empty queue record, so the name written back is `""`. The model writes back whatever the oracle returns and does not fix that choice.
- The mutex `q.l` around the name write-back (declaration.go:28-30) is only there for concurrent drivers. The model is sequential, so the lock becomes a plain heap update. The unlocked reads of the queue's name in the binding constructors (declaration.go:55, 59) are not modelled as races either.
- Contents of `amqp.Table` arguments are broker-defined. `Table` is passed through and never inspected.
- A nil `*Queue` passed to `DeclareQueue`, or held by a binding, makes the Go code panic. The model has no nil identity: `Refers` requires every queue a declaration names to exist in the heap.
- The reconnect/session driver that invokes the declaration list is not part of this model. `RunAll` models one pass in the caller's order; that it stops at the first failing declaration is the documented policy for a pass, not code of this file.
- A declaration that names a missing queue is never run by `RunAll`, whose precondition excludes it. `Invoke` still maps it to an empty outcome, but only so that a step is a total function.
