/**
 Ingest as a protocol. Any number of request handlers convert, send on one bounded FIFO channel or
 give up, and record their arrival in a separate step; one writer receives, applies and sweeps a
 batch in one locked section, then bumps the sequence number. A run interleaves these steps in any
 way their guards allow.
 */
module Pipeline {
  import opened Types
  import opened Interners
  import opened Sums
  import opened Bytes
  import opened StoreModel
  import opened StoreRuns
  import opened Sweeps
  import opened Arrivals
  import opened Batches
  import opened Order
  import opened Converting
  import opened Receiver

  datatype Outcome =
    | Accepted
    | Refused(reason: RejectReason)
    | ConversionPanicked
    | Backpressure
    | WriterGone

  // A handler is blocked on the channel, or has sent and not yet recorded, or has answered.
  datatype Phase =
    | Sending(request: Request, transport: Transport)
    | Recording(request: Request, transport: Transport)
    | Done(request: Request, transport: Transport, outcome: Outcome)

  datatype WriterPhase =
    | Waiting
    | Holding(batch: SpanBatch)
    | Swept
    | Gone(dropped: seq<SpanBatch>)

  datatype System = System(
    handlers: map<nat, Phase>,
    sent: seq<nat>,
    queue: seq<SpanBatch>,
    capacity: nat,
    writer: WriterPhase,
    store: StoreState,
    log: seq<Applied>,
    sequence: nat,
    arrivals: ArrivalCounts,
    rejects: seq<RejectRecord>)

  datatype Step =
    | Begin(handler: nat, request: Request, transport: Transport, panics: bool, at: nat)
    | Send(handler: nat)
    | TimeOut(handler: nat)
    | FindWriterGone(handler: nat)
    | Record(handler: nat)
    | Receive
    | Land(now: nat, sweep: seq<TraceId>)
    | Bump
    | Stop

  function Start(capacity: nat, budget: nat, cap: nat): System {
    System(map[], [], [], capacity, Waiting, NewStore(budget, cap), [], 0, ArrivalCounts(0, 0, 0), [])
  }

  // The batch a handler's request converts to; empty for a request that is rejected.
  function BatchOf(request: Request): SpanBatch {
    var conversion := ConvertRequest(request);
    if conversion.Converted? then conversion.batch else SpanBatch([], false, 0)
  }

  function ReasonText(reason: RejectReason): string {
    match reason
    case EmptyPayload => "EmptyPayload"
    case DecodeError(message) => "DecodeError(" + message + ")"
  }

  ghost predicate CanStep(s: System, step: Step) {
    match step
    case Begin(h, _, _, _, _) => h !in s.handlers
    case Send(h) => h in s.handlers && s.handlers[h].Sending? && !s.writer.Gone? && |s.queue| < s.capacity
    case TimeOut(h) => h in s.handlers && s.handlers[h].Sending?
    case FindWriterGone(h) => h in s.handlers && s.handlers[h].Sending? && s.writer.Gone?
    case Record(h) => h in s.handlers && s.handlers[h].Recording?
    case Receive => s.writer.Waiting? && s.queue != []
    case Land(now, sweep) => s.writer.Holding? && Sweepable(s.store, s.writer.batch, now, sweep)
    case Bump => s.writer.Swept?
    case Stop => s.writer.Waiting? || s.writer.Holding?
  }

  function Begun(s: System, h: nat, request: Request, transport: Transport, panics: bool, at: nat): System {
    if panics then
      s.(handlers := s.handlers[h := Done(request, transport, ConversionPanicked)],
         rejects := Recent(s.rejects + [RejectRecord("panic during conversion", at)]))
    else
      match ConvertRequest(request)
      case Converted(_) => s.(handlers := s.handlers[h := Sending(request, transport)])
      case Rejected(reason) =>
        s.(handlers := s.handlers[h := Done(request, transport, Refused(reason))],
           rejects := Recent(s.rejects + [RejectRecord(ReasonText(reason), at)]))
  }

  function Answer(s: System, h: nat, outcome: Outcome): System
    requires h in s.handlers
  {
    s.(handlers := s.handlers[h := Done(s.handlers[h].request, s.handlers[h].transport, outcome)])
  }

  ghost function StepTo(s: System, step: Step): System
    requires CanStep(s, step)
  {
    match step
    case Begin(h, request, transport, panics, at) => Begun(s, h, request, transport, panics, at)
    case Send(h) =>
      var phase := s.handlers[h];
      s.(handlers := s.handlers[h := Recording(phase.request, phase.transport)],
         sent := s.sent + [h],
         queue := s.queue + [BatchOf(phase.request)])
    case TimeOut(h) => Answer(s, h, Backpressure)
    case FindWriterGone(h) => Answer(s, h, WriterGone)
    case Record(h) =>
      var phase := s.handlers[h];
      Answer(s, h, Accepted).(arrivals := s.arrivals.Record(phase.transport, |BatchOf(phase.request).spans|))
    case Receive => s.(writer := Holding(s.queue[0]), queue := s.queue[1..])
    case Land(now, sweep) =>
      s.(writer := Swept,
         store := ApplyBatch(s.store, s.writer.batch, now, sweep),
         log := s.log + [Applied(s.writer.batch, now, sweep)])
    case Bump => s.(writer := Waiting, sequence := s.sequence + 1)
    case Stop => s.(writer := Gone(InHand(s.writer)))
  }

  function InHand(w: WriterPhase): seq<SpanBatch> {
    match w
    case Holding(batch) => [batch]
    case Gone(dropped) => dropped
    case _ => []
  }

  // The system after a run of steps, each taken when its guard allowed it.
  ghost function RunSteps(s: System, steps: seq<Step>): System
    requires Allowed(s, steps)
    decreases |steps|, 1
  {
    if steps == [] then s else
      StepTo(RunSteps(s, steps[..|steps| - 1]), steps[|steps| - 1])
  }

  ghost predicate Allowed(s: System, steps: seq<Step>)
    decreases |steps|, 0
  {
    steps == []
    || (Allowed(s, steps[..|steps| - 1]) && CanStep(RunSteps(s, steps[..|steps| - 1]), steps[|steps| - 1]))
  }

  // The invariant -----------------------------------------------------------------------------------

  type Handlers = map<nat, Phase>

  // A handler has sent once it is recording or has been accepted.
  predicate HasSent(handlers: Handlers, h: nat) {
    h in handlers && (handlers[h].Recording? || (handlers[h].Done? && handlers[h].outcome == Accepted))
  }

  // `sent` lists the handlers that have sent, each once.
  ghost predicate SentOnce(handlers: Handlers, sent: seq<nat>) {
    && NoRepeats(sent)
    && (forall k | 0 <= k < |sent| :: sent[k] in handlers && HasSent(handlers, sent[k]))
    && (forall h | HasSent(handlers, h) :: h in sent)
  }

  function SentBatches(handlers: Handlers, sent: seq<nat>): seq<SpanBatch>
    requires forall k | 0 <= k < |sent| :: sent[k] in handlers
  {
    seq(|sent|, k requires 0 <= k < |sent| => BatchOf(handlers[sent[k]].request))
  }

  function AppliedBatches(log: seq<Applied>): seq<SpanBatch> {
    seq(|log|, k requires 0 <= k < |log| => log[k].batch)
  }

  // Spans the listed handlers sent on one transport ...
  function SentSpans(handlers: Handlers, sent: seq<nat>, t: Transport): nat
    requires forall k | 0 <= k < |sent| :: sent[k] in handlers
  {
    if sent == [] then 0 else
      var phase := handlers[sent[|sent| - 1]];
      SentSpans(handlers, sent[..|sent| - 1], t) + if phase.transport == t then |BatchOf(phase.request).spans| else 0
  }

  // ... and those among them whose handler has, or has not, recorded its arrival.
  function RecordedSpans(handlers: Handlers, sent: seq<nat>, t: Transport, recorded: bool): nat
    requires forall k | 0 <= k < |sent| :: sent[k] in handlers
  {
    if sent == [] then 0 else
      var phase := handlers[sent[|sent| - 1]];
      RecordedSpans(handlers, sent[..|sent| - 1], t, recorded)
      + if phase.transport == t && phase.Done? == recorded then |BatchOf(phase.request).spans| else 0
  }

  ghost predicate ConvertedFirst(handlers: Handlers) {
    forall h | h in handlers && (handlers[h].Sending? || HasSent(handlers, h)) ::
      ConvertRequest(handlers[h].request).Converted?
  }

  ghost predicate HandlersOk(handlers: Handlers, sent: seq<nat>, arrivals: ArrivalCounts) {
    && SentOnce(handlers, sent)
    && ConvertedFirst(handlers)
    && forall t :: arrivals.Of(t) == RecordedSpans(handlers, sent, t, true)
  }

  ghost predicate Inv(s: System, s0: StoreState) {
    && HandlersOk(s.handlers, s.sent, s.arrivals)
    // nothing is lost, duplicated or reordered between the handlers and the store
    && SentBatches(s.handlers, s.sent) == AppliedBatches(s.log) + InHand(s.writer) + s.queue
    && Replayable(s0, s.log)
    && s.store == Replay(s0, s.log)
    && s.sequence + (if s.writer.Swept? then 1 else 0) == |s.log|
    && |s.queue| <= s.capacity
    && |s.rejects| <= REJECT_RING_CAPACITY
  }

  // Changing the phase of a handler that has not sent, to one that still has not.
  lemma OthersUndisturbed(handlers: Handlers, sent: seq<nat>, arrivals: ArrivalCounts, h: nat, phase: Phase)
    requires HandlersOk(handlers, sent, arrivals)
    requires !HasSent(handlers, h) && !HasSent(handlers[h := phase], h)
    requires phase.Sending? ==> ConvertRequest(phase.request).Converted?
    ensures HandlersOk(handlers[h := phase], sent, arrivals)
    ensures SentBatches(handlers[h := phase], sent) == SentBatches(handlers, sent)
  {
    var handlers' := handlers[h := phase];
    forall k | 0 <= k < |sent| ensures sent[k] != h && handlers'[sent[k]] == handlers[sent[k]] {
      assert HasSent(handlers, sent[k]);
    }
    forall g | HasSent(handlers', g) ensures g in sent {
      assert HasSent(handlers, g);
    }
    forall t ensures RecordedSpans(handlers', sent, t, true) == RecordedSpans(handlers, sent, t, true) {
      SameRecorded(handlers, handlers', sent, t);
    }
  }

  lemma {:induction false} SameRecorded(handlers: Handlers, handlers': Handlers, sent: seq<nat>, t: Transport)
    requires forall k | 0 <= k < |sent| ::
               sent[k] in handlers && sent[k] in handlers' && handlers'[sent[k]] == handlers[sent[k]]
    ensures RecordedSpans(handlers', sent, t, true) == RecordedSpans(handlers, sent, t, true)
  {
    if sent != [] {
      SameRecorded(handlers, handlers', sent[..|sent| - 1], t);
    }
  }

  lemma HandlerSends(handlers: Handlers, sent: seq<nat>, arrivals: ArrivalCounts, h: nat)
    requires HandlersOk(handlers, sent, arrivals)
    requires h in handlers && handlers[h].Sending?
    ensures
      var handlers' := handlers[h := Recording(handlers[h].request, handlers[h].transport)];
      && HandlersOk(handlers', sent + [h], arrivals)
      && SentBatches(handlers', sent + [h]) == SentBatches(handlers, sent) + [BatchOf(handlers[h].request)]
  {
    hide BatchOf, ConvertRequest;
    var handlers' := handlers[h := Recording(handlers[h].request, handlers[h].transport)];
    var sent' := sent + [h];
    forall k | 0 <= k < |sent| ensures sent[k] != h && handlers'[sent[k]] == handlers[sent[k]] {
      assert HasSent(handlers, sent[k]);
    }
    forall k | 0 <= k < |sent'| ensures HasSent(handlers', sent'[k]) {
      assert k < |sent| ==> HasSent(handlers, sent[k]);
    }
    forall g | HasSent(handlers', g) ensures g in sent' {
      assert g == h || HasSent(handlers, g);
    }
    forall t ensures RecordedSpans(handlers', sent', t, true) == RecordedSpans(handlers, sent, t, true) {
      assert sent'[..|sent|] == sent;
      SameRecorded(handlers, handlers', sent, t);
    }
  }

  // Recording adds the handler's spans to its transport, once.
  lemma {:induction false} OneMoreRecorded(handlers: Handlers, sent: seq<nat>, t: Transport, h: nat)
    requires NoRepeats(sent)
    requires forall k | 0 <= k < |sent| :: sent[k] in handlers
    requires h in handlers && handlers[h].Recording?
    ensures
      var phase := handlers[h];
      var handlers' := handlers[h := Done(phase.request, phase.transport, Accepted)];
      RecordedSpans(handlers', sent, t, true)
         == RecordedSpans(handlers, sent, t, true)
            + if h in sent && phase.transport == t then |BatchOf(phase.request).spans| else 0
  {
    hide BatchOf;
    if sent != [] {
      var front, last := sent[..|sent| - 1], sent[|sent| - 1];
      assert sent == front + [last];
      assert last !in front;
      OneMoreRecorded(handlers, front, t, h);
    }
  }

  lemma HandlerRecords(handlers: Handlers, sent: seq<nat>, arrivals: ArrivalCounts, h: nat)
    requires HandlersOk(handlers, sent, arrivals)
    requires h in handlers && handlers[h].Recording?
    ensures
      var phase := handlers[h];
      var handlers' := handlers[h := Done(phase.request, phase.transport, Accepted)];
      && HandlersOk(handlers', sent, arrivals.Record(phase.transport, |BatchOf(phase.request).spans|))
      && SentBatches(handlers', sent) == SentBatches(handlers, sent)
  {
    var phase := handlers[h];
    var handlers' := handlers[h := Done(phase.request, phase.transport, Accepted)];
    assert HasSent(handlers, h);
    forall k | 0 <= k < |sent|
      ensures HasSent(handlers', sent[k])
      ensures BatchOf(handlers'[sent[k]].request) == BatchOf(handlers[sent[k]].request)
    {
      assert HasSent(handlers, sent[k]);
    }
    forall g | HasSent(handlers', g) ensures g in sent {
      assert HasSent(handlers, g);
    }
    var arrivals' := arrivals.Record(phase.transport, |BatchOf(phase.request).spans|);
    forall t ensures arrivals'.Of(t) == RecordedSpans(handlers', sent, t, true) {
      OneMoreRecorded(handlers, sent, t, h);
    }
  }

  lemma InvBegin(s: System, s0: StoreState, step: Step)
    requires Inv(s, s0) && step.Begin? && CanStep(s, step)
    ensures Inv(StepTo(s, step), s0)
  {
    hide HandlersOk, SentBatches, AppliedBatches, Replay, Replayable, ConvertRequest;
    var s' := StepTo(s, step);
    OthersUndisturbed(s.handlers, s.sent, s.arrivals, step.handler, s'.handlers[step.handler]);
  }

  lemma InvHandler(s: System, s0: StoreState, step: Step)
    requires Inv(s, s0) && CanStep(s, step)
    requires step.Send? || step.TimeOut? || step.FindWriterGone? || step.Record?
    ensures Inv(StepTo(s, step), s0)
  {
    hide HandlersOk, SentBatches, AppliedBatches, Replay, Replayable, ConvertRequest, BatchOf;
    var s', h := StepTo(s, step), step.handler;
    if step.Send? {
      HandlerSends(s.handlers, s.sent, s.arrivals, h);
    } else if step.Record? {
      HandlerRecords(s.handlers, s.sent, s.arrivals, h);
    } else {
      OthersUndisturbed(s.handlers, s.sent, s.arrivals, h, s'.handlers[h]);
    }
  }

  lemma InvWriter(s: System, s0: StoreState, step: Step)
    requires Inv(s, s0) && CanStep(s, step)
    requires step.Receive? || step.Land? || step.Bump? || step.Stop?
    ensures Inv(StepTo(s, step), s0)
  {
    hide HandlersOk, SentBatches, AppliedBatches, Replay, Replayable, ApplyBatch, Sweepable;
    match step {
      case Receive =>
        assert [s.queue[0]] + s.queue[1..] == s.queue;
      case Land(now, sweep) =>
        LogGrows(NewLog(s.log, s.writer.batch, now, sweep), s0);
      case _ =>
    }
  }

  function NewLog(log: seq<Applied>, batch: SpanBatch, now: nat, sweep: seq<TraceId>): seq<Applied> {
    log + [Applied(batch, now, sweep)]
  }

  lemma LogGrows(log: seq<Applied>, s0: StoreState)
    requires log != []
    ensures
      var front, last := log[..|log| - 1], log[|log| - 1];
      && AppliedBatches(log) == AppliedBatches(front) + [last.batch]
      && Replay(s0, log) == ApplyBatch(Replay(s0, front), last.batch, last.now, last.sweep)
      && (Replayable(s0, log)
          <==> Replayable(s0, front) && Sweepable(Replay(s0, front), last.batch, last.now, last.sweep))
  {
  }

  lemma InvStep(s: System, s0: StoreState, step: Step)
    requires Inv(s, s0) && CanStep(s, step)
    ensures Inv(StepTo(s, step), s0)
  {
    hide Inv, StepTo, CanStep;
    match step {
      case Begin(_, _, _, _, _) => InvBegin(s, s0, step);
      case Send(_) => InvHandler(s, s0, step);
      case TimeOut(_) => InvHandler(s, s0, step);
      case FindWriterGone(_) => InvHandler(s, s0, step);
      case Record(_) => InvHandler(s, s0, step);
      case Receive => InvWriter(s, s0, step);
      case Land(_, _) => InvWriter(s, s0, step);
      case Bump => InvWriter(s, s0, step);
      case Stop => InvWriter(s, s0, step);
    }
  }

  /** Pipeline safety: the invariant holds after every interleaving. */
  lemma {:induction false} PipelineSafety(capacity: nat, budget: nat, cap: nat, steps: seq<Step>)
    requires Allowed(Start(capacity, budget, cap), steps)
    ensures Inv(RunSteps(Start(capacity, budget, cap), steps), NewStore(budget, cap))
  {
    var s := Start(capacity, budget, cap);
    if steps == [] {
      assert SentBatches(s.handlers, s.sent) == AppliedBatches(s.log) + InHand(s.writer) + s.queue;
    } else {
      var front := steps[..|steps| - 1];
      PipelineSafety(capacity, budget, cap, front);
      InvStep(RunSteps(s, front), NewStore(budget, cap), steps[|steps| - 1]);
    }
  }

  // What the invariant means to an observer ------------------------------------------------------------

  /** A request that was rejected, panicked or gave up contributes nothing. */
  lemma FailedRequestsContributeNothing(capacity: nat, budget: nat, cap: nat, steps: seq<Step>, h: nat)
    requires Allowed(Start(capacity, budget, cap), steps)
    requires
      var s := RunSteps(Start(capacity, budget, cap), steps);
      h in s.handlers && s.handlers[h].Done? && s.handlers[h].outcome != Accepted
    ensures h !in RunSteps(Start(capacity, budget, cap), steps).sent
  {
    PipelineSafety(capacity, budget, cap, steps);
  }

  lemma {:induction false} RecordedOrNot(handlers: Handlers, sent: seq<nat>, t: Transport)
    requires forall k | 0 <= k < |sent| :: sent[k] in handlers
    ensures RecordedSpans(handlers, sent, t, true) + RecordedSpans(handlers, sent, t, false)
         == SentSpans(handlers, sent, t)
  {
    if sent != [] {
      RecordedOrNot(handlers, sent[..|sent| - 1], t);
    }
  }

  /** Per transport, recorded arrivals plus sent-but-unrecorded spans are all the spans sent. */
  lemma ArrivalsAreConserved(capacity: nat, budget: nat, cap: nat, steps: seq<Step>, t: Transport)
    requires Allowed(Start(capacity, budget, cap), steps)
    ensures
      var s := RunSteps(Start(capacity, budget, cap), steps);
      && (forall k | 0 <= k < |s.sent| :: s.sent[k] in s.handlers)
      && s.arrivals.Of(t) + RecordedSpans(s.handlers, s.sent, t, false) == SentSpans(s.handlers, s.sent, t)
  {
    PipelineSafety(capacity, budget, cap, steps);
    var s := RunSteps(Start(capacity, budget, cap), steps);
    RecordedOrNot(s.handlers, s.sent, t);
  }

  lemma StepGrows(s: System, step: Step)
    requires CanStep(s, step)
    ensures s.log <= StepTo(s, step).log
    ensures s.sequence <= StepTo(s, step).sequence
  {
  }

  lemma {:induction false} RunStepsPrefix(s: System, steps: seq<Step>, i: nat)
    requires Allowed(s, steps)
    requires i <= |steps|
    ensures Allowed(s, steps[..i])
    ensures RunSteps(s, steps[..i]).log <= RunSteps(s, steps).log
    ensures RunSteps(s, steps[..i]).sequence <= RunSteps(s, steps).sequence
    decreases |steps|
  {
    hide StepTo, CanStep;
    if i == |steps| {
      assert steps[..i] == steps;
    } else {
      var front := steps[..|steps| - 1];
      RunStepsPrefix(s, front, i);
      StepGrows(RunSteps(s, front), steps[|steps| - 1]);
      assert front[..i] == steps[..i];
    }
  }

  /**
   A reader that sees sequence number N after `i` steps and reads the store after `j` sees the
   result of at least N batches, among them every batch the store held at `i`.
   */
  lemma ReadersSeeTheirSequence(capacity: nat, budget: nat, cap: nat, steps: seq<Step>, i: nat)
    requires Allowed(Start(capacity, budget, cap), steps)
    requires i <= |steps|
    ensures Allowed(Start(capacity, budget, cap), steps[..i])
    ensures
      var earlier := RunSteps(Start(capacity, budget, cap), steps[..i]);
      var later := RunSteps(Start(capacity, budget, cap), steps);
      && later.store == Replay(NewStore(budget, cap), later.log)
      && earlier.sequence <= |later.log|
      && earlier.log <= later.log
      && earlier.sequence <= later.sequence
  {
    RunStepsPrefix(Start(capacity, budget, cap), steps, i);
    PipelineSafety(capacity, budget, cap, steps);
    PipelineSafety(capacity, budget, cap, steps[..i]);
  }

  /** Every store a reader can ever see was reached by a run, and is consistent. */
  lemma ReachableStores(capacity: nat, budget: nat, cap: nat, steps: seq<Step>)
    requires Allowed(Start(capacity, budget, cap), steps)
    ensures
      var s := RunSteps(Start(capacity, budget, cap), steps);
      && ValidRun(NewStore(budget, cap), ReplayEvents(s.log))
      && s.store == StoreModel.Run(NewStore(budget, cap), ReplayEvents(s.log))
      && Consistent(s.store)
      && EvictionsBalance(s.store)
  {
    hide RunSteps, Replay, Replayable, HandlersOk, Consistent, ReplayEvents, StoreModel.Run, ValidRun;
    PipelineSafety(capacity, budget, cap, steps);
    var s := RunSteps(Start(capacity, budget, cap), steps);
    ReplayIsRun(NewStore(budget, cap), s.log);
    ConsistentNew(budget, cap);
    ConsistentRun(NewStore(budget, cap), ReplayEvents(s.log));
    EvictionConservation(budget, cap, ReplayEvents(s.log));
  }

  lemma {:induction false} BudgetKept(s: StoreState, es: seq<Event>)
    ensures StoreModel.Run(s, es).budget == s.budget
  {
    if es != [] {
      BudgetKept(s, es[..|es| - 1]);
    }
  }

  lemma ReplaySwept(budget: nat, cap: nat, log: seq<Applied>)
    requires Replayable(NewStore(budget, cap), log)
    ensures !MustEvict(Replay(NewStore(budget, cap), log))
  {
    hide MustEvict, Landed;
    if log == [] {
      NothingResident(budget, cap);
    }
  }

  lemma NothingResident(budget: nat, cap: nat)
    ensures !MustEvict(NewStore(budget, cap))
  {
  }

  /**
   The memory bound, over every interleaving: what a reader can see takes 64 bytes a span, 24 an
   attribute and its names within the budget, or is a single trace.
   */
  lemma BudgetHolds(capacity: nat, budget: nat, cap: nat, steps: seq<Step>)
    requires Allowed(Start(capacity, budget, cap), steps)
    ensures
      var traces := RunSteps(Start(capacity, budget, cap), steps).store.traces;
      || 64 * ResidentSpans(traces) + 24 * Total(traces.Keys, AttributeCounts(traces))
         + Total(traces.Keys, NameSizes(traces)) <= budget
      || |traces| <= 1
  {
    hide RunSteps, Replay, Replayable, HandlersOk, ReplayEvents, StoreModel.Run, ValidRun, Total;
    PipelineSafety(capacity, budget, cap, steps);
    var s := RunSteps(Start(capacity, budget, cap), steps);
    ReplayIsRun(NewStore(budget, cap), s.log);
    ReplaySwept(budget, cap, s.log);
    BudgetKept(NewStore(budget, cap), ReplayEvents(s.log));
    StoreBytes(s.store);
  }

  lemma ConsistentNew(budget: nat, cap: nat)
    ensures Consistent(NewStore(budget, cap))
  {
  }

  /**
   What a reader sees, over every interleaving: while the applied batches fit the interners, each
   span is shown as the copies applied since its trace was last evicted say.
   */
  lemma ReadersSeeSince(capacity: nat, budget: nat, cap: nat, steps: seq<Step>, id: TraceId, spanId: SpanId)
    requires Allowed(Start(capacity, budget, cap), steps)
    requires Fits(ReplayEvents(RunSteps(Start(capacity, budget, cap), steps).log), cap)
    ensures
      var s := RunSteps(Start(capacity, budget, cap), steps);
      && Consistent(s.store)
      && View(s.store, id, spanId) == LogView(Since(ReplayEvents(s.log), id), id, spanId)
  {
    hide RunSteps, ReplayEvents, StoreModel.Run, ValidRun, Consistent, View, LogView, Since, Fits;
    ReachableStores(capacity, budget, cap, steps);
    RunShowsSince(budget, cap, ReplayEvents(RunSteps(Start(capacity, budget, cap), steps).log), id, spanId);
  }

  /** Two interleavings that apply the same copies of a trace's spans show the same trace. */
  lemma InterleavingsAgree(capacity: nat, budget: nat, cap: nat, steps: seq<Step>,
                           capacity': nat, budget': nat, cap': nat, steps': seq<Step>, id: TraceId, spanId: SpanId)
    requires Allowed(Start(capacity, budget, cap), steps) && Allowed(Start(capacity', budget', cap'), steps')
    requires
      var es := ReplayEvents(RunSteps(Start(capacity, budget, cap), steps).log);
      var es' := ReplayEvents(RunSteps(Start(capacity', budget', cap'), steps').log);
      && Fits(es, cap) && Fits(es', cap')
      && SameCopiesOfEach(Since(es, id), Since(es', id), id)
    ensures
      var s := RunSteps(Start(capacity, budget, cap), steps);
      var s' := RunSteps(Start(capacity', budget', cap'), steps');
      && Consistent(s.store) && Consistent(s'.store)
      && View(s.store, id, spanId) == View(s'.store, id, spanId)
  {
    hide RunSteps, ReplayEvents, StoreModel.Run, ValidRun, Consistent, View, Since, Fits, SameCopiesOfEach;
    ReachableStores(capacity, budget, cap, steps);
    ReachableStores(capacity', budget', cap', steps');
    OrderIndependence(budget, cap, ReplayEvents(RunSteps(Start(capacity, budget, cap), steps).log),
                      budget', cap', ReplayEvents(RunSteps(Start(capacity', budget', cap'), steps').log), id, spanId);
  }

  // The spans of one trace in a batch, in the order the batch lists them.
  function SpansFor(spans: seq<TracedSpan>, id: TraceId): seq<NewSpan> {
    if spans == [] then [] else
      var last := spans[|spans| - 1];
      SpansFor(spans[..|spans| - 1], id) + if last.0 == id then [last.1] else []
  }

  // The spans of one trace in the applied batches, since the last batch whose sweep evicted it.
  function Delivered(log: seq<Applied>, id: TraceId): seq<NewSpan> {
    if log == [] then [] else
      var last := log[|log| - 1];
      if id in last.sweep then [] else Delivered(log[..|log| - 1], id) + SpansFor(last.batch.spans, id)
  }

  function SpansIn(log: seq<Arrival>): seq<NewSpan> {
    seq(|log|, i requires 0 <= i < |log| => log[i].span)
  }

  lemma {:induction false} SinceStamped(es: seq<Event>, spans: seq<TracedSpan>, now: nat, id: TraceId)
    ensures SpansIn(Since(es + Inserts(Stamp(spans, now)), id)) == SpansIn(Since(es, id)) + SpansFor(spans, id)
  {
    var all := es + Inserts(Stamp(spans, now));
    if spans == [] {
      assert all == es;
    } else {
      var n := |spans| - 1;
      assert all[..|all| - 1] == es + Inserts(Stamp(spans[..n], now));
      assert all[|all| - 1] == Insert(spans[n].0, spans[n].1, now);
      SinceStamped(es, spans[..n], now, id);
      var before := Since(es + Inserts(Stamp(spans[..n], now)), id);
      SpansInSnoc(before, Arrival(id, spans[n].1, now));
      Assoc(SpansIn(Since(es, id)), SpansFor(spans[..n], id), if spans[n].0 == id then [spans[n].1] else []);
    }
  }

  lemma SpansInSnoc(log: seq<Arrival>, last: Arrival)
    ensures SpansIn(log + [last]) == SpansIn(log) + [last.span]
  {
  }

  lemma {:induction false} SinceSwept(es: seq<Event>, ids: seq<TraceId>, id: TraceId)
    ensures Since(es + EvictAll(ids), id) == if id in ids then [] else Since(es, id)
  {
    var all := es + EvictAll(ids);
    if ids == [] {
      assert all == es;
    } else {
      var n := |ids| - 1;
      assert all[..|all| - 1] == es + EvictAll(ids[..n]);
      assert all[|all| - 1] == Evict(ids[n]);
      SinceSwept(es, ids[..n], id);
      assert ids == ids[..n] + [ids[n]];
    }
  }

  lemma SinceBatch(es: seq<Event>, last: Applied, id: TraceId)
    ensures
      var after := es + (BatchEvents(last.batch, last.now) + EvictAll(last.sweep));
      SpansIn(Since(after, id))
      == if id in last.sweep then [] else SpansIn(Since(es, id)) + SpansFor(last.batch.spans, id)
  {
    var inserted := es + Inserts(Stamp(last.batch.spans, last.now));
    var landed := inserted + [Malformed(last.batch.malformedSpanCount)];
    assert es + (BatchEvents(last.batch, last.now) + EvictAll(last.sweep)) == landed + EvictAll(last.sweep);
    assert landed[..|landed| - 1] == inserted;
    SinceStamped(es, last.batch.spans, last.now, id);
    SinceSwept(landed, last.sweep, id);
  }

  /**
   What a trace is made of, read off the batches: the spans of every batch in the order listed,
   batches in the order applied, starting after the last sweep that evicted the trace.
   */
  lemma {:induction false} SinceIsDelivered(log: seq<Applied>, id: TraceId)
    ensures SpansIn(Since(ReplayEvents(log), id)) == Delivered(log, id)
  {
    hide Since, BatchEvents, EvictAll, SpansFor, SpansIn;
    if log == [] {
      NothingSince(id);
    } else {
      SinceIsDelivered(log[..|log| - 1], id);
      SinceBatch(ReplayEvents(log[..|log| - 1]), log[|log| - 1], id);
    }
  }

  function CopiesIn(spans: seq<NewSpan>, spanId: SpanId): seq<NewSpan> {
    if spans == [] then [] else
      CopiesIn(spans[..|spans| - 1], spanId)
      + if spans[|spans| - 1].spanId == spanId then [spans[|spans| - 1]] else []
  }

  lemma {:induction false} CopiesOfSpans(log: seq<Arrival>, id: TraceId, spanId: SpanId)
    requires forall k | 0 <= k < |log| :: log[k].traceId == id
    ensures Copies(log, id, spanId) == CopiesIn(SpansIn(log), spanId)
  {
    if log != [] {
      var n := |log| - 1;
      assert SpansIn(log)[..n] == SpansIn(log[..n]);
      CopiesOfSpans(log[..n], id, spanId);
    }
  }

  /** The copies a reader's view is made of are the copies the batches delivered, in order. */
  lemma CopiesAreDelivered(log: seq<Applied>, id: TraceId, spanId: SpanId)
    ensures Copies(Since(ReplayEvents(log), id), id, spanId) == CopiesIn(Delivered(log, id), spanId)
  {
    hide Since, ReplayEvents, Copies, CopiesIn, SpansIn, Delivered;
    var since := Since(ReplayEvents(log), id);
    forall k | 0 <= k < |since| ensures since[k].traceId == id {
      SinceIsPart(ReplayEvents(log), id, k);
    }
    CopiesOfSpans(since, id, spanId);
    SinceIsDelivered(log, id);
  }

  lemma NothingSince(id: TraceId)
    ensures SpansIn(Since([], id)) == []
  {
  }

  // Answers ------------------------------------------------------------------------------------------

  ghost predicate BeganWith(steps: seq<Step>, h: nat, request: Request, transport: Transport, panics: bool) {
    exists at :: Begin(h, request, transport, panics, at) in steps
  }

  predicate Told(phase: Option<Phase>, outcome: Outcome) {
    phase.Some? && phase.value.Done? && phase.value.outcome == outcome
  }

  // The steps of a run account for where a handler stands.
  ghost predicate Explains(steps: seq<Step>, h: nat, phase: Option<Phase>) {
    && (TimeOut(h) in steps <==> Told(phase, Backpressure))
    && (FindWriterGone(h) in steps <==> Told(phase, WriterGone))
    && (Record(h) in steps <==> Told(phase, Accepted))
    && (Send(h) in steps <==> phase.Some? && (phase.value.Recording? || Told(phase, Accepted)))
    && (forall request, transport, panics :: BeganWith(steps, h, request, transport, panics) <==>
          && phase.Some?
          && phase.value.request == request && phase.value.transport == transport
          && (panics <==> Told(phase, ConversionPanicked)))
    && (phase.Some? && !Told(phase, ConversionPanicked) ==>
          match ConvertRequest(phase.value.request)
          case Rejected(reason) => Told(phase, Refused(reason))
          case Converted(_) => !(phase.value.Done? && phase.value.outcome.Refused?))
  }

  function PhaseOf(s: System, h: nat): Option<Phase> {
    if h in s.handlers then Some(s.handlers[h]) else None
  }

  lemma BeganWithSnoc(steps: seq<Step>, step: Step, h: nat, request: Request, transport: Transport, panics: bool)
    ensures BeganWith(steps + [step], h, request, transport, panics) <==>
            || BeganWith(steps, h, request, transport, panics)
            || (step.Begin? && step == Begin(h, request, transport, panics, step.at))
  {
    var all := steps + [step];
    if at :| Begin(h, request, transport, panics, at) in all {
      assert Begin(h, request, transport, panics, at) in steps || Begin(h, request, transport, panics, at) == step;
    }
    if at :| Begin(h, request, transport, panics, at) in steps {
      assert Begin(h, request, transport, panics, at) in all;
    }
    if step.Begin? && step == Begin(h, request, transport, panics, step.at) {
      assert all[|steps|] == step;
    }
  }

  lemma InSnoc(steps: seq<Step>, step: Step, x: Step)
    ensures x in steps + [step] <==> x in steps || x == step
  {
    assert (steps + [step])[|steps|] == step;
  }

  // A step that is not this handler's leaves it where it was.
  lemma ExplainsOthers(steps: seq<Step>, step: Step, h: nat, phase: Option<Phase>)
    requires Explains(steps, h, phase)
    requires step.Receive? || step.Land? || step.Bump? || step.Stop? || step.handler != h
    ensures Explains(steps + [step], h, phase)
  {
    forall request, transport, panics
      ensures BeganWith(steps + [step], h, request, transport, panics)
              <==> BeganWith(steps, h, request, transport, panics)
    {
      BeganWithSnoc(steps, step, h, request, transport, panics);
    }
    FourSteps(steps, step, h);
  }

  lemma FourSteps(steps: seq<Step>, step: Step, h: nat)
    ensures TimeOut(h) in steps + [step] <==> TimeOut(h) in steps || step == TimeOut(h)
    ensures FindWriterGone(h) in steps + [step] <==> FindWriterGone(h) in steps || step == FindWriterGone(h)
    ensures Record(h) in steps + [step] <==> Record(h) in steps || step == Record(h)
    ensures Send(h) in steps + [step] <==> Send(h) in steps || step == Send(h)
  {
    InSnoc(steps, step, TimeOut(h));
    InSnoc(steps, step, FindWriterGone(h));
    InSnoc(steps, step, Record(h));
    InSnoc(steps, step, Send(h));
  }

  lemma ExplainsOwn(s: System, steps: seq<Step>, step: Step, h: nat)
    requires CanStep(s, step) && Explains(steps, h, PhaseOf(s, h))
    requires !step.Receive? && !step.Land? && !step.Bump? && !step.Stop? && step.handler == h
    ensures Explains(steps + [step], h, PhaseOf(StepTo(s, step), h))
  {
    hide ConvertRequest, BatchOf, BeganWith;
    var phase, phase' := PhaseOf(s, h), PhaseOf(StepTo(s, step), h);
    FourSteps(steps, step, h);
    forall request, transport, panics
      ensures BeganWith(steps + [step], h, request, transport, panics) <==>
              && phase'.Some?
              && phase'.value.request == request && phase'.value.transport == transport
              && (panics <==> Told(phase', ConversionPanicked))
    {
      BeganWithSnoc(steps, step, h, request, transport, panics);
    }
  }

  lemma ElsewhereUnmoved(s: System, step: Step, h: nat)
    requires CanStep(s, step)
    requires step.Receive? || step.Land? || step.Bump? || step.Stop? || step.handler != h
    ensures PhaseOf(StepTo(s, step), h) == PhaseOf(s, h)
  {
    hide ConvertRequest, BatchOf, ApplyBatch, Sweepable;
  }

  lemma StopsOnce(s: System, step: Step)
    requires CanStep(s, step)
    ensures StepTo(s, step).writer.Gone? <==> s.writer.Gone? || step.Stop?
    ensures step.FindWriterGone? ==> s.writer.Gone?
  {
    hide ConvertRequest, BatchOf, ApplyBatch, Sweepable;
  }

  lemma {:induction false} StepsExplain(capacity: nat, budget: nat, cap: nat, steps: seq<Step>, h: nat)
    requires Allowed(Start(capacity, budget, cap), steps)
    ensures
      var s := RunSteps(Start(capacity, budget, cap), steps);
      && Explains(steps, h, PhaseOf(s, h))
      && (s.writer.Gone? <==> Stop in steps)
      && (FindWriterGone(h) in steps ==> Stop in steps)
  {
    hide StepTo, CanStep, Explains;
    if steps == [] {
      NothingToExplain(capacity, budget, cap, h);
    } else {
      var front, step := steps[..|steps| - 1], steps[|steps| - 1];
      var s := RunSteps(Start(capacity, budget, cap), front);
      assert steps == front + [step];
      StepsExplain(capacity, budget, cap, front, h);
      StopsOnce(s, step);
      InSnoc(front, step, Stop);
      InSnoc(front, step, FindWriterGone(h));
      if step.Receive? || step.Land? || step.Bump? || step.Stop? || step.handler != h {
        ElsewhereUnmoved(s, step, h);
        ExplainsOthers(front, step, h, PhaseOf(s, h));
      } else {
        ExplainsOwn(s, front, step, h);
      }
    }
  }

  lemma NothingToExplain(capacity: nat, budget: nat, cap: nat, h: nat)
    ensures Explains([], h, PhaseOf(Start(capacity, budget, cap), h))
    ensures !Start(capacity, budget, cap).writer.Gone?
  {
  }

  /**
   Every answer has its cause, over every interleaving. A handler is told of backpressure exactly
   when it timed out, that the writer is gone exactly when it found it gone, which takes a writer
   that has stopped, and success exactly when it sent and recorded. It is refused for a reason
   exactly when its request converts to that reject, and told of a panic exactly when conversion
   panicked.
   */
  lemma AnswersAreExplained(capacity: nat, budget: nat, cap: nat, steps: seq<Step>, h: nat)
    requires Allowed(Start(capacity, budget, cap), steps)
    requires
      var s := RunSteps(Start(capacity, budget, cap), steps);
      h in s.handlers && s.handlers[h].Done?
    ensures
      var outcome := RunSteps(Start(capacity, budget, cap), steps).handlers[h].outcome;
      && (outcome == Backpressure <==> TimeOut(h) in steps)
      && (outcome == WriterGone <==> FindWriterGone(h) in steps)
      && (outcome == WriterGone ==> Stop in steps)
      && (outcome == Accepted <==> Record(h) in steps)
      && (outcome == Accepted <==> Send(h) in steps)
      && (outcome == ConversionPanicked <==>
            exists request, transport :: BeganWith(steps, h, request, transport, true))
      && (forall reason :: outcome == Refused(reason) <==>
            exists request, transport ::
              BeganWith(steps, h, request, transport, false) && ConvertRequest(request) == Rejected(reason))
  {
    hide RunSteps, Allowed, BeganWith, ConvertRequest;
    StepsExplain(capacity, budget, cap, steps, h);
    var phase := RunSteps(Start(capacity, budget, cap), steps).handlers[h];
    assert BeganWith(steps, h, phase.request, phase.transport, phase.outcome == ConversionPanicked);
  }

  // The reject each step leaves, read off the steps themselves.
  function RejectsOf(steps: seq<Step>): seq<RejectRecord> {
    if steps == [] then [] else
      var last := steps[|steps| - 1];
      RejectsOf(steps[..|steps| - 1])
      + if last.Begin? && last.panics then [RejectRecord("panic during conversion", last.at)]
        else if last.Begin? && SpansInRequest(last.request) == 0 then [RejectRecord("EmptyPayload", last.at)]
        else []
  }

  lemma EmptyIsRejected(request: Request)
    ensures ConvertRequest(request).Rejected? <==> SpansInRequest(request) == 0
    ensures ConvertRequest(request).Rejected? ==> ConvertRequest(request).reason == EmptyPayload
  {
    ConversionLosesNothing(request);
  }

  lemma RejectsStep(s: System, step: Step, history: seq<RejectRecord>)
    requires CanStep(s, step) && s.rejects == Recent(history)
    ensures StepTo(s, step).rejects
         == Recent(history
                   + if step.Begin? && step.panics then [RejectRecord("panic during conversion", step.at)]
                     else if step.Begin? && SpansInRequest(step.request) == 0
                     then [RejectRecord("EmptyPayload", step.at)]
                     else [])
  {
    hide ConvertRequest, SpansInRequest, BatchOf, ApplyBatch, Sweepable, Recent;
    assert history + [] == history;
    if step.Begin? {
      EmptyIsRejected(step.request);
      RecentPush(history, RejectRecord("panic during conversion", step.at));
      RecentPush(history, RejectRecord("EmptyPayload", step.at));
    }
  }

  lemma {:induction false} RejectsAreRecent(capacity: nat, budget: nat, cap: nat, steps: seq<Step>)
    requires Allowed(Start(capacity, budget, cap), steps)
    ensures RunSteps(Start(capacity, budget, cap), steps).rejects == Recent(RejectsOf(steps))
  {
    hide StepTo, CanStep, SpansInRequest;
    if steps != [] {
      var front := steps[..|steps| - 1];
      RejectsAreRecent(capacity, budget, cap, front);
      RejectsStep(RunSteps(Start(capacity, budget, cap), front), steps[|steps| - 1], RejectsOf(front));
    }
  }

  /** Each request that is empty or panics leaves its record, in order, and the latest hundred are kept. */
  lemma RejectsAreRecorded(capacity: nat, budget: nat, cap: nat, steps: seq<Step>)
    requires Allowed(Start(capacity, budget, cap), steps)
    ensures
      var rejects, history := RunSteps(Start(capacity, budget, cap), steps).rejects, RejectsOf(steps);
      |rejects| == (if |history| < 100 then |history| else 100) && rejects == history[|history| - |rejects|..]
  {
    hide RunSteps, Allowed, RejectsOf, Recent;
    RejectsAreRecent(capacity, budget, cap, steps);
    RecentIsSuffix(RejectsOf(steps));
  }

  // Progress -----------------------------------------------------------------------------------------

  predicate IsWriterStep(step: Step) {
    step.Receive? || step.Land? || step.Bump?
  }

  lemma OneMoreStep(start: System, steps: seq<Step>, step: Step)
    requires Allowed(start, steps) && CanStep(RunSteps(start, steps), step)
    ensures Allowed(start, steps + [step])
    ensures RunSteps(start, steps + [step]) == StepTo(RunSteps(start, steps), step)
  {
    assert (steps + [step])[..|steps|] == steps;
  }

  // How much the writer still has to do.
  function Remaining(s: System): nat {
    3 * |s.queue| + (match s.writer case Waiting => 0 case Holding(_) => 2 case Swept => 1 case Gone(_) => 0)
  }

  // The writer's next step, while it has one.
  lemma WriterCanMove(s: System) returns (step: Step)
    requires !s.writer.Gone? && Remaining(s) > 0
    ensures IsWriterStep(step) && CanStep(s, step)
    ensures
      var s' := StepTo(s, step);
      && !s'.writer.Gone?
      && Remaining(s') < Remaining(s)
      && s'.handlers == s.handlers && s'.sent == s.sent && s'.arrivals == s.arrivals && s'.rejects == s.rejects
  {
    hide Sweepable, ApplyBatch;
    match s.writer {
      case Waiting => step := Receive;
      case Holding(batch) =>
        var ids := SomeSweep(s.store, batch, 0);
        step := Land(0, ids);
      case Swept => step := Bump;
    }
  }

  lemma SomeSweep(s: StoreState, batch: SpanBatch, now: nat) returns (ids: seq<TraceId>)
    ensures Sweepable(s, batch, now, ids)
  {
    ids := SweepExists(Landed(s, batch, now));
  }

  lemma {:induction false} WriterDrains(start: System, steps: seq<Step>) returns (more: seq<Step>)
    requires Allowed(start, steps) && !RunSteps(start, steps).writer.Gone?
    ensures forall i | 0 <= i < |more| :: IsWriterStep(more[i])
    ensures Allowed(start, steps + more)
    ensures
      var s, s' := RunSteps(start, steps), RunSteps(start, steps + more);
      && s'.queue == [] && s'.writer == Waiting
      && s'.handlers == s.handlers && s'.sent == s.sent && s'.arrivals == s.arrivals && s'.rejects == s.rejects
    decreases Remaining(RunSteps(start, steps))
  {
    hide RunSteps, Allowed, StepTo, CanStep;
    var s := RunSteps(start, steps);
    if Remaining(s) == 0 {
      more := [];
      assert steps + more == steps;
    } else {
      var step := WriterCanMove(s);
      OneMoreStep(start, steps, step);
      var rest := WriterDrains(start, steps + [step]);
      more := [step] + rest;
      assert steps + more == steps + [step] + rest;
    }
  }

  /**
   Progress: from every reachable state whose writer has not stopped, the writer alone can finish.
   It empties the queue without any handler moving, and then every batch ever sent has been
   applied, in the order sent, and the sequence number counts them all.
   */
  lemma EverySentBatchCanLand(capacity: nat, budget: nat, cap: nat, steps: seq<Step>) returns (more: seq<Step>)
    requires Allowed(Start(capacity, budget, cap), steps)
    requires !RunSteps(Start(capacity, budget, cap), steps).writer.Gone?
    ensures forall i | 0 <= i < |more| :: IsWriterStep(more[i])
    ensures Allowed(Start(capacity, budget, cap), steps + more)
    ensures
      var s := RunSteps(Start(capacity, budget, cap), steps);
      var s' := RunSteps(Start(capacity, budget, cap), steps + more);
      && s'.queue == [] && s'.writer == Waiting
      && s'.handlers == s.handlers && s'.sent == s.sent
      && (forall k | 0 <= k < |s'.sent| :: s'.sent[k] in s'.handlers)
      && AppliedBatches(s'.log) == SentBatches(s'.handlers, s'.sent)
      && s'.sequence == |s'.sent|
      && s'.store == Replay(NewStore(budget, cap), s'.log)
  {
    hide RunSteps, Allowed, Replay, Replayable, BatchOf;
    more := WriterDrains(Start(capacity, budget, cap), steps);
    PipelineSafety(capacity, budget, cap, steps + more);
    var s' := RunSteps(Start(capacity, budget, cap), steps + more);
    assert AppliedBatches(s'.log) + [] + [] == AppliedBatches(s'.log);
    assert |AppliedBatches(s'.log)| == |s'.log|;
  }

  /** A blocked handler is never stuck behind the writer: once the writer has drained, it can send. */
  lemma BlockedHandlerCanSend(capacity: nat, budget: nat, cap: nat, steps: seq<Step>, h: nat)
    returns (more: seq<Step>)
    requires Allowed(Start(capacity, budget, cap), steps) && capacity > 0
    requires
      var s := RunSteps(Start(capacity, budget, cap), steps);
      !s.writer.Gone? && h in s.handlers && s.handlers[h].Sending?
    ensures forall i | 0 <= i < |more| :: IsWriterStep(more[i])
    ensures Allowed(Start(capacity, budget, cap), steps + more + [Send(h)])
  {
    hide RunSteps, Allowed, StepTo;
    var start := Start(capacity, budget, cap);
    more := WriterDrains(start, steps);
    CapacityKept(start, steps + more);
    OneMoreStep(start, steps + more, Send(h));
  }

  lemma {:induction false} CapacityKept(start: System, steps: seq<Step>)
    requires Allowed(start, steps)
    ensures RunSteps(start, steps).capacity == start.capacity
  {
    hide ApplyBatch, Sweepable, ConvertRequest, BatchOf;
    if steps != [] {
      CapacityKept(start, steps[..|steps| - 1]);
    }
  }

  // End-to-end accounting ----------------------------------------------------------------------------

  lemma {:induction false} CountsConcat(a: seq<Event>, b: seq<Event>)
    ensures ArrivedIn(a + b) == ArrivedIn(a) + ArrivedIn(b)
    ensures MalformedIn(a + b) == MalformedIn(a) + MalformedIn(b)
  {
    if b == [] {
      assert a + b == a;
    } else {
      var front := b[..|b| - 1];
      assert (a + b)[..|a + b| - 1] == a + front;
      CountsConcat(a, front);
    }
  }

  lemma {:induction false} CountsOfInserts(log: seq<Arrival>)
    ensures ArrivedIn(Inserts(log)) == |log| && MalformedIn(Inserts(log)) == 0
  {
    if log != [] {
      var n := |log| - 1;
      assert Inserts(log)[..n] == Inserts(log[..n]);
      CountsOfInserts(log[..n]);
    }
  }

  lemma {:induction false} CountsOfEvictions(ids: seq<TraceId>)
    ensures ArrivedIn(EvictAll(ids)) == 0 && MalformedIn(EvictAll(ids)) == 0
  {
    if ids != [] {
      var n := |ids| - 1;
      assert EvictAll(ids)[..n] == EvictAll(ids[..n]);
      CountsOfEvictions(ids[..n]);
    }
  }

  lemma CountsOfBatch(batch: SpanBatch, now: nat, ids: seq<TraceId>)
    ensures
      var es := BatchEvents(batch, now) + EvictAll(ids);
      ArrivedIn(es) == |batch.spans| && MalformedIn(es) == batch.malformedSpanCount
  {
    CountsConcat(BatchEvents(batch, now), EvictAll(ids));
    CountsOfEvictions(ids);
    CountsOfInserts(Stamp(batch.spans, now));
    assert BatchEvents(batch, now)[..|batch.spans|] == Inserts(Stamp(batch.spans, now));
  }

  // Spans in the requests of the first handlers that sent.
  function SpansRequested(handlers: Handlers, sent: seq<nat>): nat
    requires forall k | 0 <= k < |sent| :: sent[k] in handlers
  {
    if sent == [] then 0 else
      SpansRequested(handlers, sent[..|sent| - 1]) + SpansInRequest(handlers[sent[|sent| - 1]].request)
  }

  lemma {:induction false} RequestsAreCounted(handlers: Handlers, sent: seq<nat>, log: seq<Applied>)
    requires |log| == |sent|
    requires forall k | 0 <= k < |sent| ::
               && sent[k] in handlers
               && ConvertRequest(handlers[sent[k]].request).Converted?
               && log[k].batch == BatchOf(handlers[sent[k]].request)
    ensures ArrivedIn(ReplayEvents(log)) + MalformedIn(ReplayEvents(log)) == SpansRequested(handlers, sent)
  {
    hide ConvertRequest, SpansInRequest, BatchEvents;
    if log != [] {
      var n := |log| - 1;
      RequestsAreCounted(handlers, sent[..n], log[..n]);
      var last := log[n];
      CountsConcat(ReplayEvents(log[..n]), BatchEvents(last.batch, last.now) + EvictAll(last.sweep));
      CountsOfBatch(last.batch, last.now, last.sweep);
      ConversionLosesNothing(handlers[sent[n]].request);
    }
  }

  /**
   End to end, over every interleaving: the spans in all requests whose batch has been applied are
   exactly the malformed, plus the duplicates, plus the resident, plus those that left with an
   evicted trace.
   */
  lemma EndToEndAccounting(capacity: nat, budget: nat, cap: nat, steps: seq<Step>)
    requires Allowed(Start(capacity, budget, cap), steps)
    ensures
      var s := RunSteps(Start(capacity, budget, cap), steps);
      && |s.log| <= |s.sent|
      && (forall k | 0 <= k < |s.log| :: s.sent[k] in s.handlers)
      && SpansRequested(s.handlers, s.sent[..|s.log|])
         == s.store.counters.malformedSpan + s.store.counters.duplicateSpan + ResidentSpans(s.store.traces)
            + Departed(NewStore(budget, cap), ReplayEvents(s.log))
  {
    PipelineSafety(capacity, budget, cap, steps);
    AppliedAreAccounted(RunSteps(Start(capacity, budget, cap), steps), budget, cap);
  }

  lemma AppliedAreAccounted(s: System, budget: nat, cap: nat)
    requires Inv(s, NewStore(budget, cap))
    ensures |s.log| <= |s.sent|
    ensures forall k | 0 <= k < |s.log| :: s.sent[k] in s.handlers
    ensures SpansRequested(s.handlers, s.sent[..|s.log|])
            == s.store.counters.malformedSpan + s.store.counters.duplicateSpan + ResidentSpans(s.store.traces)
               + Departed(NewStore(budget, cap), ReplayEvents(s.log))
  {
    hide BatchOf, ConvertRequest, RecordedSpans, Replay, Replayable;
    var batches := SentBatches(s.handlers, s.sent);
    assert |batches| == |s.sent|;
    assert batches == AppliedBatches(s.log) + (InHand(s.writer) + s.queue);
    var sent := s.sent[..|s.log|];
    forall k | 0 <= k < |sent|
      ensures
        && sent[k] in s.handlers
        && ConvertRequest(s.handlers[sent[k]].request).Converted?
        && s.log[k].batch == BatchOf(s.handlers[sent[k]].request)
    {
      assert sent[k] == s.sent[k];
      assert HasSent(s.handlers, s.sent[k]);
      assert batches[k] == AppliedBatches(s.log)[k];
    }
    RequestsAreCounted(s.handlers, sent, s.log);
    ReplayIsRun(NewStore(budget, cap), s.log);
    SpanAccounting(budget, cap, ReplayEvents(s.log));
  }
}
