/** Declarations: reusable units of topology configuration, and what one
    invocation of each does against a declarer. */
module Declarations {
  import opened Wrappers
  import opened Entities
  import opened Broker

  /** The routing key a binding uses when its keys are nil: matches everything. */
  const DefaultKey: string := "#.#"

  /** A declaration as built by one of the four constructors. A queue
      declaration remembers the queue's name as it was at construction. */
  datatype Declaration =
    | QueueDecl(queue: QueueId, original: string)
    | ExchangeDecl(exchange: Exchange)
    | QueueBindingDecl(qb: QueueBinding)
    | ExchangeBindingDecl(xb: ExchangeBinding)

  /** What one invocation produced: the calls made on the declarer, in order,
      the queues afterwards, and the error it returned. */
  datatype Outcome = Outcome(trace: seq<Call>, heap: Heap, err: Option<Error>)

  /** The calls of a binding loop and the error it returned. */
  datatype Attempt = Attempt(trace: seq<Call>, err: Option<Error>)

  /** The declaration only names queues that exist (a `*Queue` is never dangling). */
  predicate Refers(d: Declaration, queues: set<QueueId>) {
    match d
    case QueueDecl(q, _) => q in queues
    case QueueBindingDecl(b) => b.queue in queues
    case _ => true
  }

  // The four constructors. Building a declaration issues no call.

  /** Captures the queue's identity and its name as it is now; every later
      invocation declares that captured name. */
  function DeclareQueue(h: Heap, q: QueueId): (d: Declaration)
    requires q in h
    ensures d.QueueDecl? && d.queue == q && d.original == h[q].name
    ensures Refers(d, h.Keys)
  {
    QueueDecl(q, h[q].name)
  }

  /** Captures the exchange description; it names no queue. */
  function DeclareExchange(e: Exchange): (d: Declaration)
    ensures d.ExchangeDecl? && d.exchange == e
    ensures Refers(d, {})
  {
    ExchangeDecl(e)
  }

  /** Captures the binding, whose queue is held by identity: the queue's
      name is not read until the declaration is invoked. */
  function DeclareQueueBinding(b: QueueBinding): (d: Declaration)
    ensures d.QueueBindingDecl? && d.qb == b
    ensures Refers(d, {b.queue})
  {
    QueueBindingDecl(b)
  }

  /** Captures the binding; it names no queue. */
  function DeclareExchangeBinding(b: ExchangeBinding): (d: Declaration)
    ensures d.ExchangeBindingDecl? && d.xb == b
    ensures Refers(d, {})
  {
    ExchangeBindingDecl(b)
  }

  /** Invoking a queue declaration: reset the name to the one captured at
      construction, declare, then write the declarer's name back. */
  function ExecQueue(q: QueueId, original: string, c: Declarer, h: Heap): (o: Outcome)
    requires q in h
    ensures |o.trace| == 1
    ensures o.trace[0] == QueueDeclare(original, h[q].durable, h[q].autoDelete, h[q].exclusive, false, h[q].args)
    ensures q in o.heap && o.heap[q].name == c(o.trace[0]).declaredName
    ensures OnlyNamesChanged(h, o.heap)
    ensures forall id :: id in h && id != q ==> o.heap[id] == h[id]
    ensures o.err == c(o.trace[0]).err
  {
    var reset := h[q := h[q].(name := original)];
    var call := QueueDeclare(reset[q].name, reset[q].durable, reset[q].autoDelete, reset[q].exclusive, false, reset[q].args);
    var reply := c(call);
    Outcome([call], reset[q := reset[q].(name := reply.declaredName)], reply.err)
  }

  /** Invoking an exchange declaration: one pass-through call. */
  function ExecExchange(e: Exchange, c: Declarer, h: Heap): (o: Outcome)
    ensures o.trace == [ExchangeDeclare(e.name, e.kind, e.durable, e.autoDelete, false, false, e.args)]
    ensures o.heap == h
    ensures o.err == c(o.trace[0]).err
  {
    var call := ExchangeDeclare(e.name, e.kind, e.durable, e.autoDelete, false, false, e.args);
    Outcome([call], h, c(call).err)
  }

  /** The two ends of a binding, already resolved to names: the first and the
      third argument of the bind call. */
  datatype BindTarget =
    | ToQueue(queue: string, exchange: string, args: Table)
    | ToExchange(destination: string, source: string, args: Table)

  function BindCall(t: BindTarget, key: string): (call: Call) {
    match t
    case ToQueue(q, e, a) => QueueBind(q, key, e, false, a)
    case ToExchange(d, s, a) => ExchangeBind(d, key, s, false, a)
  }

  /** The calls a binding loop over `keys` would make if none failed: one per key, in order. */
  function Planned(t: BindTarget, keys: seq<string>): (p: seq<Call>)
    ensures |p| == |keys|
    ensures forall i :: 0 <= i < |keys| ==> p[i] == BindCall(t, keys[i])
  {
    seq(|keys|, i requires 0 <= i < |keys| => BindCall(t, keys[i]))
  }

  /** The fail-fast discipline, stated independently of any loop: the calls
      made are a prefix of the planned ones; every call but the last
      succeeded; the result is no error exactly when every planned call was
      made and succeeded, and otherwise the last call's error, unchanged. */
  ghost predicate FailFast(c: Declarer, planned: seq<Call>, trace: seq<Call>, err: Option<Error>) {
    && trace <= planned
    && (forall i :: 0 <= i < |trace| - 1 ==> !Fails(c, trace[i]))
    && (err.None? ==> trace == planned && forall i :: 0 <= i < |trace| ==> !Fails(c, trace[i]))
    && (err.Some? ==> |trace| > 0 && err == c(trace[|trace| - 1]).err)
  }

  /** The binding loop over a non-nil key slice: bind key by key, stop at the first error. */
  function BindEach(t: BindTarget, keys: seq<string>, c: Declarer): (a: Attempt)
    ensures FailFast(c, Planned(t, keys), a.trace, a.err)
  {
    if keys == [] then Attempt([], None)
    else
      var call := BindCall(t, keys[0]);
      PlannedCons(t, keys);
      if Fails(c, call) then
        FirstCallFails(c, call, Planned(t, keys[1..]));
        Attempt([call], c(call).err)
      else
        var rest := BindEach(t, keys[1..], c);
        FirstCallSucceeds(c, call, Planned(t, keys[1..]), rest.trace, rest.err);
        Attempt([call] + rest.trace, rest.err)
  }

  lemma PlannedCons(t: BindTarget, keys: seq<string>)
    requires keys != []
    ensures Planned(t, keys) == [BindCall(t, keys[0])] + Planned(t, keys[1..])
  {
    var p, p' := Planned(t, keys), [BindCall(t, keys[0])] + Planned(t, keys[1..]);
    forall i | 0 <= i < |p| ensures p[i] == p'[i] {
      if i > 0 {
        assert p'[i] == Planned(t, keys[1..])[i - 1];
      }
    }
  }

  /** A loop whose first call fails stops there, with that call's error. */
  lemma FirstCallFails(c: Declarer, call: Call, rest: seq<Call>)
    requires Fails(c, call)
    ensures FailFast(c, [call] + rest, [call], c(call).err)
  {
    assert [call] <= [call] + rest;
  }

  /** A loop whose first call succeeds goes on as the loop over the remaining plan. */
  lemma FirstCallSucceeds(c: Declarer, call: Call, planned: seq<Call>, trace: seq<Call>, err: Option<Error>)
    requires !Fails(c, call)
    requires FailFast(c, planned, trace, err)
    ensures FailFast(c, [call] + planned, [call] + trace, err)
  {
    var t := [call] + trace;
    assert forall i :: 0 < i < |t| ==> t[i] == trace[i - 1];
    assert trace == planned[..|trace|];
    assert t == ([call] + planned)[..|t|];
  }

  /** At most one behaviour is fail-fast for a given plan: the trace and the
      error are determined by the declarer's answers. */
  lemma FailFastUnique(c: Declarer, planned: seq<Call>, t1: seq<Call>, e1: Option<Error>, t2: seq<Call>, e2: Option<Error>)
    requires FailFast(c, planned, t1, e1)
    requires FailFast(c, planned, t2, e2)
    ensures t1 == t2 && e1 == e2
  {
    NotShorter(c, planned, t1, e1, t2, e2);
    NotShorter(c, planned, t2, e2, t1, e1);
    assert t1 == planned[..|t1|] == t2;
  }

  lemma NotShorter(c: Declarer, planned: seq<Call>, t1: seq<Call>, e1: Option<Error>, t2: seq<Call>, e2: Option<Error>)
    requires FailFast(c, planned, t1, e1)
    requires FailFast(c, planned, t2, e2)
    ensures |t1| >= |t2|
  {
    assert forall k :: 0 <= k < |t2| ==> t2[k] == planned[k];
    if e1.Some? {
      assert t1[|t1| - 1] == planned[|t1| - 1];
    }
  }

  /** The binding loop as written: one bind per key, in order, returning the
      first error. It behaves exactly as the recursive `BindEach`. */
  method BindKeys(t: BindTarget, keys: seq<string>, c: Declarer) returns (trace: seq<Call>, err: Option<Error>)
    ensures FailFast(c, Planned(t, keys), trace, err)
    ensures Attempt(trace, err) == BindEach(t, keys, c)
  {
    trace := [];
    var i := 0;
    while i < |keys|
      invariant 0 <= i <= |keys|
      invariant trace == Planned(t, keys)[..i]
      invariant forall j :: 0 <= j < i ==> !Fails(c, trace[j])
    {
      var call := BindCall(t, keys[i]);
      assert Planned(t, keys)[..i + 1] == Planned(t, keys)[..i] + [call];
      trace := trace + [call];
      if Fails(c, call) {
        err := c(call).err;
        var a := BindEach(t, keys, c);
        FailFastUnique(c, Planned(t, keys), trace, err, a.trace, a.err);
        return;
      }
      i := i + 1;
    }
    err := None;
    var a := BindEach(t, keys, c);
    FailFastUnique(c, Planned(t, keys), trace, err, a.trace, a.err);
  }

  /** A binding declaration: nil keys bind once under the default key,
      otherwise the fail-fast loop runs over the keys. */
  function ExecBinding(t: BindTarget, keys: Option<seq<string>>, c: Declarer, h: Heap): (o: Outcome)
    ensures o.heap == h
    ensures keys.None? ==> o.trace == [BindCall(t, DefaultKey)] && o.err == c(o.trace[0]).err
    ensures keys.Some? ==> FailFast(c, Planned(t, keys.value), o.trace, o.err)
  {
    match keys
    case None =>
      var call := BindCall(t, DefaultKey);
      Outcome([call], h, c(call).err)
    case Some(ks) =>
      var a := BindEach(t, ks, c);
      Outcome(a.trace, h, a.err)
  }

  /** Invoking a queue binding: the queue's name is read now, at invocation. */
  function ExecQueueBinding(b: QueueBinding, c: Declarer, h: Heap): (o: Outcome)
    requires b.queue in h
    ensures o.heap == h
    ensures b.keys.None? ==>
      && o.trace == [QueueBind(h[b.queue].name, DefaultKey, b.exchange.name, false, b.args)]
      && o.err == c(o.trace[0]).err
    ensures b.keys.Some? ==>
      FailFast(c, Planned(ToQueue(h[b.queue].name, b.exchange.name, b.args), b.keys.value), o.trace, o.err)
    ensures forall i :: 0 <= i < |o.trace| ==>
      o.trace[i].QueueBind? && o.trace[i].name == h[b.queue].name && o.trace[i].exchange == b.exchange.name
  {
    ExecBinding(ToQueue(h[b.queue].name, b.exchange.name, b.args), b.keys, c, h)
  }

  /** Invoking an exchange binding: destination first, source third. */
  function ExecExchangeBinding(b: ExchangeBinding, c: Declarer, h: Heap): (o: Outcome)
    ensures o.heap == h
    ensures b.keys.None? ==>
      && o.trace == [ExchangeBind(b.destination.name, DefaultKey, b.source.name, false, b.args)]
      && o.err == c(o.trace[0]).err
    ensures b.keys.Some? ==>
      FailFast(c, Planned(ToExchange(b.destination.name, b.source.name, b.args), b.keys.value), o.trace, o.err)
    ensures forall i :: 0 <= i < |o.trace| ==>
      o.trace[i].ExchangeBind? && o.trace[i].destination == b.destination.name && o.trace[i].source == b.source.name
  {
    ExecBinding(ToExchange(b.destination.name, b.source.name, b.args), b.keys, c, h)
  }

  /** Invoking any declaration. A declaration neither adds nor drops queues. */
  function Exec(d: Declaration, c: Declarer, h: Heap): (o: Outcome)
    requires Refers(d, h.Keys)
    ensures o.heap.Keys == h.Keys
  {
    match d
    case QueueDecl(q, original) => ExecQueue(q, original, c, h)
    case ExchangeDecl(e) => ExecExchange(e, c, h)
    case QueueBindingDecl(b) => ExecQueueBinding(b, c, h)
    case ExchangeBindingDecl(b) => ExecExchangeBinding(b, c, h)
  }

  /** What every invocation keeps: only a queue declaration writes state, and
      only its own queue's name; every call waits for confirmation and
      declares no internal exchange; an error returned is the last call's
      error, unchanged. */
  lemma ExecInvariants(d: Declaration, c: Declarer, h: Heap)
    requires Refers(d, h.Keys)
    ensures OnlyNamesChanged(h, Exec(d, c, h).heap)
    ensures !d.QueueDecl? ==> Exec(d, c, h).heap == h
    ensures d.QueueDecl? ==> forall id :: id in h && id != d.queue ==> Exec(d, c, h).heap[id] == h[id]
    ensures forall i :: 0 <= i < |Exec(d, c, h).trace| ==> Synchronous(Exec(d, c, h).trace[i])
    ensures var o := Exec(d, c, h);
      o.err.Some? ==> |o.trace| > 0 && o.err == c(o.trace[|o.trace| - 1]).err
  {
    match d
    case QueueDecl(q, original) =>
    case ExchangeDecl(e) =>
    case QueueBindingDecl(b) =>
      ExecBindingKeeps(ToQueue(h[b.queue].name, b.exchange.name, b.args), b.keys, c, h);
    case ExchangeBindingDecl(b) =>
      ExecBindingKeeps(ToExchange(b.destination.name, b.source.name, b.args), b.keys, c, h);
  }

  /** A binding's calls are all planned bind calls, which wait for
      confirmation; its error is its last call's. */
  lemma ExecBindingKeeps(t: BindTarget, keys: Option<seq<string>>, c: Declarer, h: Heap)
    ensures var o := ExecBinding(t, keys, c, h);
      forall i :: 0 <= i < |o.trace| ==> Synchronous(o.trace[i])
    ensures var o := ExecBinding(t, keys, c, h);
      o.err.Some? ==> |o.trace| > 0 && o.err == c(o.trace[|o.trace| - 1]).err
  {
    var o := ExecBinding(t, keys, c, h);
    if keys.Some? {
      var p := Planned(t, keys.value);
      assert forall i :: 0 <= i < |o.trace| ==> o.trace[i] == p[i];
    }
  }
}
