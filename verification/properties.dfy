/** What declarations promise across invocations and across a setup pass. */
module Properties {
  import opened Wrappers
  import opened Entities
  import opened Broker
  import opened Declarations
  import opened Setup

  /** The queue-declare call a declaration of queue `q` that captured
      `original` issues when invoked on `h`. */
  function DeclareCall(h: Heap, q: QueueId, original: string): (call: Call)
    requires q in h
  {
    QueueDeclare(original, h[q].durable, h[q].autoDelete, h[q].exclusive, false, h[q].args)
  }

  // ----- Queue declarations: reset, write-back, re-invocation

  /** Because the name is reset first, an invocation does not depend on what
      an earlier invocation (or anyone) wrote into the queue's name. */
  lemma InvocationIgnoresCurrentName(q: QueueId, original: string, c: Declarer, h: Heap, written: string)
    requires q in h
    ensures Exec(QueueDecl(q, original), c, h[q := h[q].(name := written)]) == Exec(QueueDecl(q, original), c, h)
    ensures Exec(QueueDecl(q, original), c, h).trace[0].name == original
  {
    var h' := h[q := h[q].(name := written)];
    assert h'[q := h'[q].(name := original)] == h[q := h[q].(name := original)];
  }

  /** Re-running a queue declaration on a fresh session (another declarer)
      asks again for the name captured at construction, not for the name the
      previous session assigned. */
  lemma ReconnectRequestsOriginalName(h: Heap, q: QueueId, first: Declarer, second: Declarer)
    requires q in h
    ensures
      var d := DeclareQueue(h, q);
      var o2 := Exec(d, second, Exec(d, first, h).heap);
      && o2 == Exec(d, second, h)
      && o2.trace == [DeclareCall(h, q, h[q].name)]
  {
    var d := DeclareQueue(h, q);
    var o1 := Exec(d, first, h);
    assert o1.heap == h[q := h[q].(name := o1.heap[q].name)];
    InvocationIgnoresCurrentName(q, h[q].name, second, h, o1.heap[q].name);
  }

  /** Invoking a queue declaration twice on the same session is the same as
      invoking it once. */
  lemma RedeclareIsIdempotent(h: Heap, q: QueueId, c: Declarer)
    requires q in h
    ensures
      var d := DeclareQueue(h, q);
      Exec(d, c, Exec(d, c, h).heap) == Exec(d, c, h)
  {
    ReconnectRequestsOriginalName(h, q, c, c);
  }

  /** The declared name is written back whether or not the declarer reported
      an error, and the error is returned unchanged. */
  lemma NameWrittenBack(h: Heap, q: QueueId, c: Declarer)
    requires q in h
    ensures
      var o := Exec(DeclareQueue(h, q), c, h);
      && o.trace == [DeclareCall(h, q, h[q].name)]
      && o.heap == h[q := h[q].(name := c(DeclareCall(h, q, h[q].name)).declaredName)]
      && o.err == c(DeclareCall(h, q, h[q].name)).err
  {
    var o := Exec(DeclareQueue(h, q), c, h);
    assert o.heap == h[q := h[q].(name := o.heap[q].name)];
  }

  /** A declarer that confirms the requested name leaves the queue as it was. */
  lemma EchoKeepsQueue(h: Heap, q: QueueId, c: Declarer)
    requires q in h
    requires c(DeclareCall(h, q, h[q].name)) == Reply(h[q].name, None)
    ensures Exec(DeclareQueue(h, q), c, h) == Outcome([DeclareCall(h, q, h[q].name)], h, None)
  {
    NameWrittenBack(h, q, c);
  }

  // ----- Bindings: nil, empty and failing key lists; the two kinds agree

  /** A present but empty key list binds nothing and succeeds, unlike a nil one. */
  lemma EmptyKeysBindNothing(b: QueueBinding, c: Declarer, h: Heap)
    requires b.queue in h
    requires b.keys == Some([])
    ensures Exec(DeclareQueueBinding(b), c, h) == Outcome([], h, None)
  {
  }

  /** Keys ["a", "b", "c"] where "a" binds and "b" fails: the "c" bind is never issued. */
  lemma SecondKeyFails(b: QueueBinding, c: Declarer, h: Heap)
    requires b.queue in h
    requires b.keys == Some(["a", "b", "c"])
    requires !Fails(c, QueueBind(h[b.queue].name, "a", b.exchange.name, false, b.args))
    requires Fails(c, QueueBind(h[b.queue].name, "b", b.exchange.name, false, b.args))
    ensures
      var o := Exec(DeclareQueueBinding(b), c, h);
      && o.trace == [QueueBind(h[b.queue].name, "a", b.exchange.name, false, b.args),
                     QueueBind(h[b.queue].name, "b", b.exchange.name, false, b.args)]
      && o.err == c(o.trace[1]).err
  {
    var t := ToQueue(h[b.queue].name, b.exchange.name, b.args);
    var p := Planned(t, ["a", "b", "c"]);
    var o := Exec(DeclareQueueBinding(b), c, h);
    var expected := [p[0], p[1]];
    assert expected <= p;
    FailFastUnique(c, p, o.trace, o.err, expected, c(p[1]).err);
  }

  /** The exchange-to-exchange bind that corresponds to a queue bind. */
  function Retarget(call: Call): (x: Call) {
    match call
    case QueueBind(n, k, e, w, a) => ExchangeBind(n, k, e, w, a)
    case _ => call
  }

  /** The loop is the same for both kinds of binding: if the declarer answers
      an exchange bind as it answers the queue bind with the same arguments,
      the calls correspond one to one and the error is the same. */
  lemma {:induction false} BindEachMirrors(n: string, e: string, a: Table, keys: seq<string>, c: Declarer)
    requires forall k :: c(QueueBind(n, k, e, false, a)).err == c(ExchangeBind(n, k, e, false, a)).err
    ensures
      var qa := BindEach(ToQueue(n, e, a), keys, c);
      var xa := BindEach(ToExchange(n, e, a), keys, c);
      && |xa.trace| == |qa.trace|
      && (forall i :: 0 <= i < |qa.trace| ==> xa.trace[i] == Retarget(qa.trace[i]))
      && xa.err == qa.err
    decreases |keys|
  {
    if keys != [] {
      BindEachMirrors(n, e, a, keys[1..], c);
    }
  }

  /** An exchange binding behaves as the queue binding with the destination in
      the queue's place and the source in the exchange's place. */
  lemma ExchangeBindingMirrorsQueueBinding(qb: QueueBinding, xb: ExchangeBinding, c: Declarer, h: Heap)
    requires qb.queue in h
    requires xb.destination.name == h[qb.queue].name && xb.source.name == qb.exchange.name
    requires xb.keys == qb.keys && xb.args == qb.args
    requires forall k :: c(QueueBind(xb.destination.name, k, xb.source.name, false, xb.args)).err
                         == c(ExchangeBind(xb.destination.name, k, xb.source.name, false, xb.args)).err
    ensures
      var qo := Exec(DeclareQueueBinding(qb), c, h);
      var xo := Exec(DeclareExchangeBinding(xb), c, h);
      && |xo.trace| == |qo.trace|
      && (forall i :: 0 <= i < |qo.trace| ==> xo.trace[i] == Retarget(qo.trace[i]))
      && xo.err == qo.err
      && xo.heap == qo.heap
  {
    if qb.keys.Some? {
      BindEachMirrors(xb.destination.name, xb.source.name, xb.args, qb.keys.value, c);
    }
  }

  // ----- A setup pass: bindings see the name the broker assigned

  /** After a queue declaration, followed by declarations that do not
      redeclare that queue, the queue carries the name the declarer returned,
      whether or not the pass failed. The declaration may have captured any
      name and the pass may start on any queues, as on a reconnect, where the
      queue still holds the previous session's name. */
  lemma DeclaredNameSurvives(h: Heap, q: QueueId, original: string, mids: seq<Declaration>, c: Declarer)
    requires q in h
    requires AllRefer(mids, h.Keys)
    requires forall i :: 0 <= i < |mids| ==> !(mids[i].QueueDecl? && mids[i].queue == q)
    ensures AllRefer([QueueDecl(q, original)] + mids, h.Keys)
    ensures
      var before := RunAll([QueueDecl(q, original)] + mids, c, h);
      && |before.trace| > 0
      && before.trace[0] == DeclareCall(h, q, original)
      && q in before.heap
      && before.heap[q].name == c(DeclareCall(h, q, original)).declaredName
  {
    var d := QueueDecl(q, original);
    RunAllCons(d, mids, c, h);
    var first := Exec(d, c, h);
    if first.err.None? {
      NamePersists(mids, c, first.heap, q);
    }
  }

  /** A queue declaration, any declarations that do not redeclare that queue,
      then a binding on it: every bind carries the name the declarer returned
      for the queue, because the binding reads the name when it runs. */
  lemma BindingSeesDeclaredName(h: Heap, q: QueueId, original: string, mids: seq<Declaration>, b: QueueBinding, c: Declarer)
    requires q in h && b.queue == q
    requires AllRefer(mids, h.Keys)
    requires forall i :: 0 <= i < |mids| ==> !(mids[i].QueueDecl? && mids[i].queue == q)
    ensures AllRefer([QueueDecl(q, original)] + mids + [DeclareQueueBinding(b)], h.Keys)
    ensures
      var before := RunAll([QueueDecl(q, original)] + mids, c, h);
      var o := RunAll([QueueDecl(q, original)] + mids + [DeclareQueueBinding(b)], c, h);
      && o.trace[0] == DeclareCall(h, q, original)
      && (before.err.None? ==>
            && (b.keys.None? ==> |o.trace| == |before.trace| + 1)
            && forall i :: |before.trace| <= i < |o.trace| ==>
                 && o.trace[i].QueueBind?
                 && o.trace[i].name == c(DeclareCall(h, q, original)).declaredName
                 && o.trace[i].exchange == b.exchange.name)
  {
    var xs := [QueueDecl(q, original)] + mids;
    var bind := DeclareQueueBinding(b);
    DeclaredNameSurvives(h, q, original, mids, c);
    AllReferJoin(xs, [bind], h.Keys);
    RunAllSplit(xs, [bind], c, h);
    var before := RunAll(xs, c, h);
    if before.err.None? {
      RunAllSingle(bind, c, before.heap);
    }
  }

  /** The reconnect case: a pass built once from `h` is run on one session,
      then again on a second session, on the queues the first left behind.
      The second pass declares the originally captured name again, and its
      binds carry the name the second session returned. */
  lemma ReconnectBindingSeesNewName(h: Heap, q: QueueId, mids: seq<Declaration>, b: QueueBinding, first: Declarer, second: Declarer)
    requires q in h && b.queue == q
    requires AllRefer(mids, h.Keys)
    requires forall i :: 0 <= i < |mids| ==> !(mids[i].QueueDecl? && mids[i].queue == q)
    ensures AllRefer([DeclareQueue(h, q)] + mids + [DeclareQueueBinding(b)], h.Keys)
    ensures
      var ds := [DeclareQueue(h, q)] + mids + [DeclareQueueBinding(b)];
      var h1 := RunAll(ds, first, h).heap;
      var before := RunAll([DeclareQueue(h, q)] + mids, second, h1);
      var o := RunAll(ds, second, h1);
      && o.trace[0] == DeclareCall(h, q, h[q].name)
      && (before.err.None? ==>
            forall i :: |before.trace| <= i < |o.trace| ==>
              && o.trace[i].QueueBind?
              && o.trace[i].name == second(DeclareCall(h, q, h[q].name)).declaredName)
  {
    var ds := [DeclareQueue(h, q)] + mids + [DeclareQueueBinding(b)];
    BindingSeesDeclaredName(h, q, h[q].name, mids, b, first);
    var h1 := RunAll(ds, first, h).heap;
    PassOnlyRenames(ds, first, h);
    assert h1[q] == h[q].(name := h1[q].name);
    assert DeclareCall(h1, q, h[q].name) == DeclareCall(h, q, h[q].name);
    BindingSeesDeclaredName(h1, q, h[q].name, mids, b, second);
  }

  /** The worked example: exchange "ex1" (topic), a queue with an empty name
      that the broker names "amq.gen-XYZ", and a binding under "orders.*". */
  lemma OrdersScenario(c: Declarer)
    requires !Fails(c, ExchangeDeclare("ex1", "topic", false, false, false, false, map[]))
    requires c(QueueDeclare("", false, false, false, false, map[])) == Reply("amq.gen-XYZ", None)
    ensures
      var h := map[0 := Queue("", false, false, false, map[])];
      var ex := Exchange("ex1", "topic", false, false, map[]);
      var ds := [DeclareExchange(ex), DeclareQueue(h, 0),
                 DeclareQueueBinding(QueueBinding(0, ex, Some(["orders.*"]), map[]))];
      var o := RunAll(ds, c, h);
      && |o.trace| == 3
      && o.trace[2] == QueueBind("amq.gen-XYZ", "orders.*", "ex1", false, map[])
  {
    var h := map[0 := Queue("", false, false, false, map[])];
    var ex := Exchange("ex1", "topic", false, false, map[]);
    var ds := [DeclareExchange(ex), DeclareQueue(h, 0),
               DeclareQueueBinding(QueueBinding(0, ex, Some(["orders.*"]), map[]))];
    var o1 := Exec(ds[0], c, h);
    var o2 := Exec(ds[1], c, o1.heap);
    var o3 := Exec(ds[2], c, o2.heap);
    assert o2.heap[0].name == "amq.gen-XYZ";
    assert o3.trace[0] == QueueBind("amq.gen-XYZ", "orders.*", "ex1", false, map[]);
    assert ds[1..][1..] == [ds[2]];
    RunAllSingle(ds[2], c, o2.heap);
    var r3 := RunAll([ds[2]], c, o2.heap);
    var r2 := RunAll(ds[1..], c, o1.heap);
    assert r2.trace == o2.trace + r3.trace;
    assert RunAll(ds, c, h).trace == o1.trace + r2.trace;
  }
}
