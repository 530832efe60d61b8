/** The debug-line buffer shared by every capability handle: `log` appends, `flush` takes the whole
    buffer and hands the lines over one at a time, suspending between lines. */
module LogBuffers {
  import opened Handovers

  class Sink {
    var received: seq<string>

    constructor ()
      ensures received == []
    {
      received := [];
    }

    method Accept(line: string)
      modifies this
      ensures received == old(received) + [line]
    {
      received := received + [line];
    }
  }

  class LogBuffer {
    var pending: seq<string>
    const sink: Sink

    constructor (sink: Sink)
      ensures pending == [] && this.sink == sink
    {
      pending := [];
      this.sink := sink;
    }

    method Log(message: string)
      modifies this`pending
      ensures pending == old(pending) + [message]
    {
      pending := pending + [message];
    }

    /** A flush that nothing interrupts hands over every buffered line, in order, once. */
    method Flush()
      modifies this`pending, sink
      ensures pending == []
      ensures sink.received == old(sink.received) + old(pending)
    {
      var lines := pending;
      pending := [];
      var i := 0;
      while i < |lines|
        invariant 0 <= i <= |lines|
        invariant pending == []
        invariant sink.received == old(sink.received) + lines[..i]
      {
        sink.Accept(lines[i]);
        i := i + 1;
        assert lines[..i] == lines[..i - 1] + [lines[i - 1]];
      }
      assert lines[..i] == lines;
    }
  }

  // ---------------------------------------------------------------------------
  // Overlapping flushes
  // ---------------------------------------------------------------------------

  /** Every line logged, the buffer, and the flushes: each is a task that hands over the lines it took. */
  datatype State = State(logged: seq<string>, pending: seq<string>, flushes: Handover<string>)

  datatype Step = Log(message: string) | Take | Deliver(flush: nat)

  const INIT := State([], [], Handover([], []))

  /** One step: a push and a take each happen under the lock, and a flush waits for the sink after
      every line, so each line it hands over is a step of its own. Delivering for a flush that has
      nothing left changes nothing. */
  function Apply(s: State, step: Step): State {
    match step
    case Log(m) => s.(logged := s.logged + [m], pending := s.pending + [m])
    case Take => s.(pending := [], flushes := Started(s.flushes, s.pending))
    case Deliver(k) => if CanAdvance(s.flushes, k) then s.(flushes := Advanced(s.flushes, k)) else s
  }

  function Run(steps: seq<Step>): State {
    if steps == [] then INIT else Apply(Run(steps[..|steps| - 1]), steps[|steps| - 1])
  }

  /** The lines handed over, oldest first. */
  function Received(s: State): seq<string> {
    Items(s.flushes.history)
  }

  /** The lines taken and not yet handed over, flush by flush. */
  function InFlight(s: State): seq<string> {
    Remaining(s.flushes.tasks)
  }

  // ---------------------------------------------------------------------------
  // Nothing is lost, nothing is delivered twice
  // ---------------------------------------------------------------------------

  /** The lines taken, flush by flush, and the pending ones are the log. */
  ghost predicate Accounted(s: State) {
    s.logged == AllItems(s.flushes.tasks) + s.pending
  }

  ghost predicate Conserved(s: State) {
    Accounted(s) && multiset(s.logged) == multiset(Received(s)) + multiset(InFlight(s)) + multiset(s.pending)
  }

  lemma StepKeepsAccount(s: State, step: Step)
    requires Accounted(s) && Sound(s.flushes)
    ensures Accounted(Apply(s, step)) && Sound(Apply(s, step).flushes)
  {
    hide Sound, AllItems, Advanced, Started;
    match step
    case Log(m) =>
      Associative(AllItems(s.flushes.tasks), s.pending, [m]);
    case Take =>
      StartKeepsSound(s.flushes, s.pending);
    case Deliver(k) =>
      if CanAdvance(s.flushes, k) {
        AdvanceKeepsSound(s.flushes, k);
      }
  }

  lemma AccountedIsConserved(s: State)
    requires Accounted(s) && Sound(s.flushes)
    ensures Conserved(s)
  {
    hide AllItems, Items, Remaining, Prefixes, Traced;
  }

  /** Under every interleaving of logging and overlapping flushes: the batches in the order they
      were taken, followed by the pending lines, are the log; every logged line is delivered, in
      flight or pending, exactly once; and each flush has handed over a prefix of its batch. */
  lemma {:induction false} EveryRun(steps: seq<Step>)
    ensures Conserved(Run(steps)) && Sound(Run(steps).flushes)
  {
    if steps == [] {
      NothingYet(INIT.flushes);
      assert Accounted(INIT);
    } else {
      var init, last := steps[..|steps| - 1], steps[|steps| - 1];
      EveryRun(init);
      hide Sound, Apply;
      StepKeepsAccount(Run(init), last);
    }
    hide Sound, Accounted, Conserved, Run, Apply;
    AccountedIsConserved(Run(steps));
  }

  /** When every flush has finished and nothing is pending, the lines handed over are the logged
      lines, each as often as it was logged. */
  lemma Drained(steps: seq<Step>)
    requires Run(steps).pending == [] && Idle(Run(steps).flushes.tasks)
    ensures multiset(Received(Run(steps))) == multiset(Run(steps).logged)
  {
    EveryRun(steps);
    IdleRemaining(Run(steps).flushes.tasks);
    hide Run, Remaining, Sound, Items, Idle;
  }

  // ---------------------------------------------------------------------------
  // Order across calls
  // ---------------------------------------------------------------------------

  /** In any state of a run whose lines came in log order so far, the log is the lines received, then
      those in flight, then the pending ones. The received lines alone show the order when no two
      logged lines are alike. */
  lemma OrderReads(steps: seq<Step>)
    ensures var s := Run(steps);
            (InOrder(s.flushes) ==> s.logged == Received(s) + InFlight(s) + s.pending) &&
            (Distinct(s.logged) && Received(s) <= s.logged ==> InOrder(s.flushes))
  {
    var s := Run(steps);
    EveryRun(steps);
    assert Accounted(s);
    hide Run, AllItems, Items, Remaining, Conserved, Prefixes, Traced, InOrder;
    InOrderReads(s.flushes);
    if InOrder(s.flushes) {
      InOrderSplits(s.flushes);
    }
    BalancedLength(s.flushes);
    DistinctPrefix(AllItems(s.flushes.tasks), s.pending, Received(s));
  }

  lemma BalancedLength(h: Handover<string>)
    requires Balanced(h)
    ensures |Items(h.history)| <= |AllItems(h.tasks)|
  {
    hide AllItems, Items, Remaining;
    assert |multiset(AllItems(h.tasks))| == |multiset(Items(h.history))| + |multiset(Remaining(h.tasks))|;
  }

  lemma DistinctPrefix(taken: seq<string>, pending: seq<string>, received: seq<string>)
    requires |received| <= |taken|
    ensures Distinct(taken + pending) ==> Distinct(taken)
    ensures received <= taken + pending ==> received <= taken
  {
    assert forall i | 0 <= i < |taken| :: (taken + pending)[i] == taken[i];
  }

  /** No flush takes lines while another one still has lines to hand over. */
  ghost predicate NoOverlap(steps: seq<Step>) {
    forall i | 0 <= i < |steps| && steps[i] == Take ::
      Run(steps[..i]).pending == [] || Idle(Run(steps[..i]).flushes.tasks)
  }

  lemma NoOverlapInit(steps: seq<Step>, step: Step)
    requires NoOverlap(steps + [step])
    ensures NoOverlap(steps)
    ensures step == Take ==> Run(steps).pending == [] || Idle(Run(steps).flushes.tasks)
  {
    hide Run, Idle;
    var all := steps + [step];
    assert all[..|steps|] == steps && all[|steps|] == step;
    assert forall i | 0 <= i < |steps| :: all[i] == steps[i] && all[..i] == steps[..i];
  }

  lemma SerialStep(s: State, step: Step)
    requires Sound(s.flushes) && InOrder(s.flushes) && LastOnly(s.flushes.tasks)
    requires step == Take ==> s.pending == [] || Idle(s.flushes.tasks)
    ensures InOrder(Apply(s, step).flushes) && LastOnly(Apply(s, step).flushes.tasks)
  {
    hide Sound, InOrder, LastOnly, Advanced, Started, Idle;
    match step
    case Log(_) =>
    case Take => SerialStart(s.flushes, s.pending);
    case Deliver(k) =>
      if CanAdvance(s.flushes, k) {
        SerialAdvance(s.flushes, k);
      }
  }

  lemma {:induction false} SerialRun(steps: seq<Step>)
    requires NoOverlap(steps)
    ensures InOrder(Run(steps).flushes) && LastOnly(Run(steps).flushes.tasks)
  {
    if steps == [] {
      NothingYet(INIT.flushes);
    } else {
      var init, last := steps[..|steps| - 1], steps[|steps| - 1];
      assert steps == init + [last];
      hide *;
      NoOverlapInit(init, last);
      SerialRun(init);
      EveryRun(init);
      RunSnoc(init, last);
      SerialStep(Run(init), last);
    }
  }

  /** Flushes that do not overlap keep the order across calls: at every moment the lines handed
      over are the first lines of the log, followed there by those in flight and the pending ones. */
  lemma SerialFlushesKeepOrder(steps: seq<Step>)
    requires NoOverlap(steps)
    ensures var s := Run(steps);
            InOrder(s.flushes) && LastOnly(s.flushes.tasks) && Received(s) <= s.logged &&
            s.logged == Received(s) + InFlight(s) + s.pending
  {
    hide *;
    SerialRun(steps);
    OrderReads(steps);
  }

  // ---------------------------------------------------------------------------
  // Exactly when the order is kept
  // ---------------------------------------------------------------------------

  /** The step hands over no line while an earlier flush still has lines left. */
  ghost predicate TakesItsTurn(h: Handover<string>, step: Step) {
    step.Deliver? && CanAdvance(h, step.flush) ==> FirstInLine(h.tasks, step.flush)
  }

  /** Every line was handed over by the first flush that had any left. */
  ghost predicate ServedFirst(steps: seq<Step>) {
    forall i | 0 <= i < |steps| :: TakesItsTurn(Run(steps[..i]).flushes, steps[i])
  }

  lemma StepInOrderIff(s: State, step: Step)
    requires Sound(s.flushes)
    ensures InOrder(Apply(s, step).flushes) <==> InOrder(s.flushes) && TakesItsTurn(s.flushes, step)
  {
    assert Traced(s.flushes);
    hide Sound, Traced, InOrder, FirstInLine, Advanced, Started;
    match step
    case Log(_) =>
    case Take => StartInOrderIff(s.flushes, s.pending);
    case Deliver(k) =>
      if CanAdvance(s.flushes, k) {
        AdvanceInOrderIff(s.flushes, k);
      }
  }

  lemma ServedFirstNext(steps: seq<Step>, step: Step)
    ensures ServedFirst(steps + [step]) <==> ServedFirst(steps) && TakesItsTurn(Run(steps).flushes, step)
  {
    hide TakesItsTurn, Run;
    var all := steps + [step];
    assert all[..|steps|] == steps && all[|steps|] == step;
    assert forall i | 0 <= i < |steps| :: all[i] == steps[i] && all[..i] == steps[..i];
  }

  /** A run keeps the order exactly when no flush hands over a line while an earlier one still has
      lines left. */
  lemma {:induction false} InOrderIff(steps: seq<Step>)
    ensures InOrder(Run(steps).flushes) <==> ServedFirst(steps)
  {
    if steps == [] {
      NothingYet(INIT.flushes);
    } else {
      var init, last := steps[..|steps| - 1], steps[|steps| - 1];
      assert steps == init + [last];
      hide *;
      InOrderIff(init);
      EveryRun(init);
      RunSnoc(init, last);
      StepInOrderIff(Run(init), last);
      ServedFirstNext(init, last);
    }
  }

  /** In any run in order so far, every possible next line keeps the order exactly when at most one
      flush has lines left: while two flushes overlap, the order is up to the scheduler. */
  lemma OrderKeptIffOneActive(steps: seq<Step>)
    requires InOrder(Run(steps).flushes)
    ensures var s, tasks := Run(steps), Run(steps).flushes.tasks;
            (forall k | 0 <= k < |tasks| && Active(tasks[k]) :: InOrder(Apply(s, Deliver(k)).flushes)) <==>
            (forall j, k | 0 <= j < k < |tasks| && Active(tasks[j]) :: !Active(tasks[k]))
  {
    var s := Run(steps);
    EveryRun(steps);
    hide Run, InOrder, Sound, Advanced, Active, Conserved;
    forall k | 0 <= k < |s.flushes.tasks| && Active(s.flushes.tasks[k])
      ensures InOrder(Apply(s, Deliver(k)).flushes) <==> FirstInLine(s.flushes.tasks, k)
    {
      NextKeepsOrderIff(s.flushes, k);
    }
  }

  /** The shortest run that loses the order: a second flush takes a line while the first still
      holds one, and is scheduled first. */
  lemma OverlapLosesOrder(a: string, b: string)
    requires a != b
    ensures var s := Run([Log(a), Take, Log(b), Take, Deliver(1)]);
            s.logged == [a, b] && Received(s) == [b] && !InOrder(s.flushes)
  {
    TwoTakes(a, b);
    var steps := [Log(a), Take, Log(b), Take];
    assert [Log(a), Take, Log(b), Take, Deliver(1)] == steps + [Deliver(1)];
    hide Run, InOrder, Items;
    RunSnoc(steps, Deliver(1));
    SecondFirst(Run(steps).flushes, a, b);
  }

  lemma TwoTakes(a: string, b: string)
    ensures Run([Log(a), Take, Log(b), Take]) ==
            State([a, b], [], Handover([Task([a], 0), Task([b], 0)], []))
  {
    var one := State([a], [], Handover([Task([a], 0)], []));
    LogAndTake(INIT, a);
    LogAndTake(one, b);
    RunPair(INIT, [], Log(a), Take);
    RunPair(one, [Log(a), Take], Log(b), Take);
    hide Run, Apply;
    assert [] + [Log(a), Take] == [Log(a), Take];
    assert [Log(a), Take] + [Log(b), Take] == [Log(a), Take, Log(b), Take];
    assert [] + [a] == [a] && [a] + [b] == [a, b];
    assert [] + [Task([a], 0)] == [Task([a], 0)];
    assert [Task([a], 0)] + [Task([b], 0)] == [Task([a], 0), Task([b], 0)];
  }

  lemma LogAndTake(s: State, m: string)
    requires s.pending == []
    ensures Apply(Apply(s, Log(m)), Take) ==
            State(s.logged + [m], [], s.flushes.(tasks := s.flushes.tasks + [Task([m], 0)]))
  {
    assert s.pending + [m] == [m];
  }

  lemma RunPair(s: State, steps: seq<Step>, x: Step, y: Step)
    ensures Run([]) == INIT
    ensures Run(steps) == s ==> Run(steps + [x, y]) == Apply(Apply(s, x), y)
  {
    hide Apply;
    RunSnoc(steps, x);
    RunSnoc(steps + [x], y);
    assert steps + [x] + [y] == steps + [x, y];
  }

  lemma SecondFirst(h: Handover<string>, a: string, b: string)
    requires a != b && h == Handover([Task([a], 0), Task([b], 0)], [])
    ensures CanAdvance(h, 1) && Items(Advanced(h, 1).history) == [b] && !InOrder(Advanced(h, 1))
  {
    var g, d := Advanced(h, 1), DeliveryOf(h.tasks, 1, 0);
    Append([], d);
    assert g.history == [] + [d];
    assert Offset(g.tasks, 1) == 1 && g.history[0].task == 1;
  }

  lemma RunSnoc(steps: seq<Step>, step: Step)
    ensures Run(steps + [step]) == Apply(Run(steps), step)
  {}
}
