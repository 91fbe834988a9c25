/** One topology-setup pass: declarations invoked in the caller's order on one
    declarer, the queues' names threaded from each declaration to the next. */
module Setup {
  import opened Wrappers
  import opened Entities
  import opened Broker
  import opened Declarations

  /** Every declaration of the pass only names existing queues. */
  predicate AllRefer(ds: seq<Declaration>, queues: set<QueueId>) {
    forall i :: 0 <= i < |ds| ==> Refers(ds[i], queues)
  }

  /** One step of a pass: a declaration invoked on the current queues. */
  type Step = (Declaration, Heap) -> Outcome

  /** Invoking declarations on declarer `c`. A declaration naming a missing
      queue (a nil `*Queue`, on which the Go code panics) is outside the
      model: `RunAll` requires that none occurs, and the second branch only
      makes the step total. */
  function Invoke(c: Declarer): Step {
    (d: Declaration, h: Heap) => if Refers(d, h.Keys) then Exec(d, c, h) else Outcome([], h, None)
  }

  /** Runs `ds` in order with `step` and stops at the first declaration that
      returns an error, which the run returns. */
  function Run(ds: seq<Declaration>, step: Step, h: Heap): Outcome
    decreases |ds|
  {
    if ds == [] then Outcome([], h, None)
    else
      var first := step(ds[0], h);
      if first.err.Some? then first
      else
        var rest := Run(ds[1..], step, first.heap);
        Outcome(first.trace + rest.trace, rest.heap, rest.err)
  }

  /** One setup pass on declarer `c`. A pass neither adds nor drops queues. */
  function RunAll(ds: seq<Declaration>, c: Declarer, h: Heap): (o: Outcome)
    requires AllRefer(ds, h.Keys)
    ensures o.heap.Keys == h.Keys
  {
    InvokeRenamesOnly(c);
    RunRenamesOnly(ds, Invoke(c), h);
    Run(ds, Invoke(c), h)
  }

  // ----- Composition, for any step

  /** A run of one declaration is that declaration's step. */
  lemma RunSingle(d: Declaration, step: Step, h: Heap)
    ensures Run([d], step, h) == step(d, h)
  {
    assert [d][1..] == [];
    assert step(d, h).trace + [] == step(d, h).trace;
  }

  /** Running `xs + ys` is running `xs`, then, if it succeeded, running `ys`
      on the queues `xs` left behind. */
  lemma {:induction false} RunSplit(xs: seq<Declaration>, ys: seq<Declaration>, step: Step, h: Heap)
    ensures Run(xs + ys, step, h) ==
      var a := Run(xs, step, h);
      if a.err.Some? then a
      else
        var b := Run(ys, step, a.heap);
        Outcome(a.trace + b.trace, b.heap, b.err)
    decreases |xs|
  {
    if xs == [] {
      assert xs + ys == ys;
    } else {
      assert (xs + ys)[0] == xs[0];
      assert (xs + ys)[1..] == xs[1..] + ys;
      var first := step(xs[0], h);
      if first.err.None? {
        RunSplit(xs[1..], ys, step, first.heap);
        var a := Run(xs[1..], step, first.heap);
        if a.err.None? {
          var b := Run(ys, step, a.heap);
          assert first.trace + (a.trace + b.trace) == (first.trace + a.trace) + b.trace;
        }
      }
    }
  }

  // ----- Invariants a run inherits from its step

  /** The step changes nothing but queue names. */
  ghost predicate RenamesOnly(step: Step) {
    forall d: Declaration, h: Heap :: OnlyNamesChanged(h, step(d, h).heap)
  }

  /** The step leaves queue `q` alone unless it declares `q`. */
  ghost predicate Leaves(step: Step, q: QueueId) {
    forall d: Declaration, h: Heap :: q in h && !(d.QueueDecl? && d.queue == q) ==> q in step(d, h).heap && step(d, h).heap[q] == h[q]
  }

  /** Every call the step makes waits for confirmation and declares no internal exchange. */
  ghost predicate WaitsAlways(step: Step) {
    forall d: Declaration, h: Heap, i :: 0 <= i < |step(d, h).trace| ==> Synchronous(step(d, h).trace[i])
  }

  /** An error the step returns is its last call's error on `c`, unchanged. */
  ghost predicate ReportsLastCall(step: Step, c: Declarer) {
    forall d: Declaration, h: Heap :: step(d, h).err.Some? ==>
      |step(d, h).trace| > 0 && step(d, h).err == c(step(d, h).trace[|step(d, h).trace| - 1]).err
  }

  lemma {:induction false} RunRenamesOnly(ds: seq<Declaration>, step: Step, h: Heap)
    requires RenamesOnly(step)
    ensures OnlyNamesChanged(h, Run(ds, step, h).heap)
    decreases |ds|
  {
    if ds != [] {
      var first := step(ds[0], h);
      if first.err.None? {
        RunRenamesOnly(ds[1..], step, first.heap);
      }
    }
  }

  lemma {:induction false} RunLeaves(ds: seq<Declaration>, step: Step, h: Heap, q: QueueId)
    requires Leaves(step, q)
    requires q in h
    requires forall i :: 0 <= i < |ds| ==> !(ds[i].QueueDecl? && ds[i].queue == q)
    ensures q in Run(ds, step, h).heap && Run(ds, step, h).heap[q] == h[q]
    decreases |ds|
  {
    if ds != [] {
      var first := step(ds[0], h);
      if first.err.None? {
        assert forall i :: 0 <= i < |ds[1..]| ==> ds[1..][i] == ds[i + 1];
        RunLeaves(ds[1..], step, first.heap, q);
      }
    }
  }

  lemma {:induction false} RunWaitsAlways(ds: seq<Declaration>, step: Step, h: Heap)
    requires WaitsAlways(step)
    ensures forall i :: 0 <= i < |Run(ds, step, h).trace| ==> Synchronous(Run(ds, step, h).trace[i])
    decreases |ds|
  {
    if ds != [] {
      var first := step(ds[0], h);
      if first.err.None? {
        RunWaitsAlways(ds[1..], step, first.heap);
        var rest := Run(ds[1..], step, first.heap);
        var t := first.trace + rest.trace;
        assert forall i :: |first.trace| <= i < |t| ==> t[i] == rest.trace[i - |first.trace|];
      }
    }
  }

  lemma {:induction false} RunReportsLastCall(ds: seq<Declaration>, step: Step, c: Declarer, h: Heap)
    requires ReportsLastCall(step, c)
    ensures var o := Run(ds, step, h);
      o.err.Some? ==> |o.trace| > 0 && o.err == c(o.trace[|o.trace| - 1]).err
    decreases |ds|
  {
    if ds != [] {
      var first := step(ds[0], h);
      if first.err.None? {
        RunReportsLastCall(ds[1..], step, c, first.heap);
        var rest := Run(ds[1..], step, first.heap);
        if rest.err.Some? {
          var t := first.trace + rest.trace;
          assert t[|t| - 1] == rest.trace[|rest.trace| - 1];
        }
      }
    }
  }

  // ----- The declarer's step keeps what a single invocation keeps

  lemma InvokeRenamesOnly(c: Declarer)
    ensures RenamesOnly(Invoke(c))
  {
    forall d: Declaration, h: Heap ensures OnlyNamesChanged(h, Invoke(c)(d, h).heap) {
      if Refers(d, h.Keys) {
        ExecInvariants(d, c, h);
      }
    }
  }

  lemma InvokeLeaves(c: Declarer, q: QueueId)
    ensures Leaves(Invoke(c), q)
  {
    forall d: Declaration, h: Heap | q in h && !(d.QueueDecl? && d.queue == q)
      ensures q in Invoke(c)(d, h).heap && Invoke(c)(d, h).heap[q] == h[q]
    {
      if Refers(d, h.Keys) {
        ExecInvariants(d, c, h);
      }
    }
  }

  lemma InvokeWaitsAlways(c: Declarer)
    ensures WaitsAlways(Invoke(c))
  {
    forall d: Declaration, h: Heap, i | 0 <= i < |Invoke(c)(d, h).trace|
      ensures Synchronous(Invoke(c)(d, h).trace[i])
    {
      if Refers(d, h.Keys) {
        ExecInvariants(d, c, h);
      }
    }
  }

  lemma InvokeReportsLastCall(c: Declarer)
    ensures ReportsLastCall(Invoke(c), c)
  {
    forall d: Declaration, h: Heap | Invoke(c)(d, h).err.Some?
      ensures |Invoke(c)(d, h).trace| > 0
      ensures Invoke(c)(d, h).err == c(Invoke(c)(d, h).trace[|Invoke(c)(d, h).trace| - 1]).err
    {
      if Refers(d, h.Keys) {
        ExecInvariants(d, c, h);
      }
    }
  }

  // ----- What a pass keeps

  /** A pass changes nothing but queue names. */
  lemma PassOnlyRenames(ds: seq<Declaration>, c: Declarer, h: Heap)
    requires AllRefer(ds, h.Keys)
    ensures OnlyNamesChanged(h, RunAll(ds, c, h).heap)
  {
    InvokeRenamesOnly(c);
    RunRenamesOnly(ds, Invoke(c), h);
  }

  /** Every call of a pass waits for confirmation and declares no internal exchange. */
  lemma PassSynchronous(ds: seq<Declaration>, c: Declarer, h: Heap)
    requires AllRefer(ds, h.Keys)
    ensures forall i :: 0 <= i < |RunAll(ds, c, h).trace| ==> Synchronous(RunAll(ds, c, h).trace[i])
  {
    InvokeWaitsAlways(c);
    RunWaitsAlways(ds, Invoke(c), h);
  }

  /** An error a pass returns is the error of its last call, unchanged. */
  lemma PassErrorIsLastCall(ds: seq<Declaration>, c: Declarer, h: Heap)
    requires AllRefer(ds, h.Keys)
    ensures var o := RunAll(ds, c, h);
      o.err.Some? ==> |o.trace| > 0 && o.err == c(o.trace[|o.trace| - 1]).err
  {
    InvokeReportsLastCall(c);
    RunReportsLastCall(ds, Invoke(c), c, h);
  }

  /** A pass in which no declaration declares queue `q` leaves `q` as it found it. */
  lemma NamePersists(ds: seq<Declaration>, c: Declarer, h: Heap, q: QueueId)
    requires AllRefer(ds, h.Keys)
    requires q in h
    requires forall i :: 0 <= i < |ds| ==> !(ds[i].QueueDecl? && ds[i].queue == q)
    ensures q in RunAll(ds, c, h).heap && RunAll(ds, c, h).heap[q] == h[q]
  {
    InvokeLeaves(c, q);
    RunLeaves(ds, Invoke(c), h, q);
  }

  // ----- Composing passes

  lemma AllReferSplit(xs: seq<Declaration>, ys: seq<Declaration>, queues: set<QueueId>)
    requires AllRefer(xs + ys, queues)
    ensures AllRefer(xs, queues) && AllRefer(ys, queues)
  {
    forall i | 0 <= i < |xs| ensures Refers(xs[i], queues) {
      assert xs[i] == (xs + ys)[i];
    }
    forall i | 0 <= i < |ys| ensures Refers(ys[i], queues) {
      assert ys[i] == (xs + ys)[|xs| + i];
    }
  }

  lemma AllReferJoin(xs: seq<Declaration>, ys: seq<Declaration>, queues: set<QueueId>)
    requires AllRefer(xs, queues) && AllRefer(ys, queues)
    ensures AllRefer(xs + ys, queues)
  {
    forall i | 0 <= i < |xs + ys| ensures Refers((xs + ys)[i], queues) {
      if i < |xs| {
        assert (xs + ys)[i] == xs[i];
      } else {
        assert (xs + ys)[i] == ys[i - |xs|];
      }
    }
  }

  /** A pass of one declaration is that declaration's invocation. */
  lemma RunAllSingle(d: Declaration, c: Declarer, h: Heap)
    requires Refers(d, h.Keys)
    ensures AllRefer([d], h.Keys)
    ensures RunAll([d], c, h) == Exec(d, c, h)
  {
    RunSingle(d, Invoke(c), h);
  }

  /** One step of a pass: the first declaration runs, and the rest run only
      if it succeeded, on the queues it left behind. */
  lemma RunAllCons(d: Declaration, ds: seq<Declaration>, c: Declarer, h: Heap)
    requires Refers(d, h.Keys)
    requires AllRefer(ds, h.Keys)
    ensures AllRefer([d] + ds, h.Keys)
    ensures RunAll([d] + ds, c, h) ==
      var first := Exec(d, c, h);
      if first.err.Some? then first
      else
        var rest := RunAll(ds, c, first.heap);
        Outcome(first.trace + rest.trace, rest.heap, rest.err)
  {
    AllReferJoin([d], ds, h.Keys);
    RunSplit([d], ds, Invoke(c), h);
    RunSingle(d, Invoke(c), h);
  }

  /** Running `xs + ys` is running `xs`, then, if it succeeded, running `ys`
      on the queues `xs` left behind. */
  lemma RunAllSplit(xs: seq<Declaration>, ys: seq<Declaration>, c: Declarer, h: Heap)
    requires AllRefer(xs + ys, h.Keys)
    ensures AllRefer(xs, h.Keys)
    ensures AllRefer(ys, RunAll(xs, c, h).heap.Keys)
    ensures RunAll(xs + ys, c, h) ==
      var a := RunAll(xs, c, h);
      if a.err.Some? then a
      else
        var b := RunAll(ys, c, a.heap);
        Outcome(a.trace + b.trace, b.heap, b.err)
  {
    AllReferSplit(xs, ys, h.Keys);
    RunSplit(xs, ys, Invoke(c), h);
  }
}
