/**
 Export of command spans (desktop_otlp.rs): producers offer spans to a bounded queue and
 one thread gathers them into batches and sends these to a collector.

 The counters are unbounded here; the 64-bit counters of the host would wrap.
 */
module SpanExport {
  import opened Arithmetic
  import opened Sequences

  type Span = string

  /**
   The queue, the batch being gathered and the counters. The last four fields are history:
   what was offered, what the queue accepted, the batches that were sent, and what was
   left behind when the export thread ended.
   */
  datatype Pipeline = Pipeline(
    capacity: nat,
    batchSize: nat,
    queue: seq<Span>,
    batch: seq<Span>,
    connected: bool,
    exported: nat,
    rejected: nat,
    dropped: nat,
    errors: nat,
    offered: nat,
    accepted: seq<Span>,
    sent: seq<seq<Span>>,
    abandoned: seq<Span>)

  function Start(capacity: nat, batchSize: nat): Pipeline {
    Pipeline(capacity, batchSize, [], [], true, 0, 0, 0, 0, 0, [], [], [])
  }

  /** The collector's answer to one batch: how many spans it says it rejected, or no answer. */
  datatype Answer = Answered(rejected: nat) | Failed

  datatype Step =
    | Offer(span: Span)
    | Take
    | Send(answer: Answer)
    | Disconnect

  function Next(p: Pipeline, s: Step): Pipeline {
    match s
    case Offer(span) =>
      var offered := p.(offered := p.offered + 1);
      if !p.connected then offered.(dropped := p.dropped + 1, errors := p.errors + 1)
      else if |p.queue| >= p.capacity then offered.(dropped := p.dropped + 1)
      else offered.(queue := p.queue + [span], accepted := p.accepted + [span])
    case Take =>
      if !p.connected || p.queue == [] || |p.batch| >= p.batchSize then p
      else p.(queue := p.queue[1..], batch := p.batch + [p.queue[0]])
    case Send(answer) =>
      if p.batch == [] then p
      else
        var cleared := p.(batch := [], sent := p.sent + [p.batch]);
        (match answer
         case Answered(rejected) =>
           cleared.(exported := p.exported + SaturatingSub(|p.batch|, rejected), rejected := p.rejected + rejected)
         case Failed =>
           cleared.(errors := p.errors + 1, dropped := p.dropped + |p.batch|))
    case Disconnect =>
      p.(connected := false, queue := [], batch := [], abandoned := p.abandoned + p.batch + p.queue)
  }

  function RunSteps(p: Pipeline, steps: seq<Step>): Pipeline
    decreases |steps|
  {
    if steps == [] then p else RunSteps(Next(p, steps[0]), steps[1..])
  }

  // ------------------------------------------------------------- conservation

  /** Where the offered spans are said to be. */
  function Accounted(p: Pipeline): nat {
    |p.queue| + |p.batch| + p.exported + p.rejected + p.dropped + |p.abandoned|
  }

  /** By how much an answer claims to have rejected more spans than the batch held. */
  function Overclaim(p: Pipeline, s: Step): nat {
    if s.Send? && s.answer.Answered? && p.batch != [] then SaturatingSub(s.answer.rejected, |p.batch|) else 0
  }

  function Overclaims(p: Pipeline, steps: seq<Step>): nat
    decreases |steps|
  {
    if steps == [] then 0 else Overclaim(p, steps[0]) + Overclaims(Next(p, steps[0]), steps[1..])
  }

  /** No answer of the run rejects more than its batch held. */
  ghost predicate Honest(p: Pipeline, steps: seq<Step>)
    decreases |steps|
  {
    steps == [] || (Overclaim(p, steps[0]) == 0 && Honest(Next(p, steps[0]), steps[1..]))
  }

  lemma StepBalance(p: Pipeline, s: Step)
    ensures Accounted(Next(p, s)) + p.offered == Accounted(p) + Next(p, s).offered + Overclaim(p, s)
  {
  }

  lemma {:induction false} RunBalance(p: Pipeline, steps: seq<Step>)
    ensures Accounted(RunSteps(p, steps)) + p.offered
         == Accounted(p) + RunSteps(p, steps).offered + Overclaims(p, steps)
    ensures Overclaims(p, steps) == 0 <==> Honest(p, steps)
    decreases |steps|
  {
    if steps != [] {
      StepBalance(p, steps[0]);
      RunBalance(Next(p, steps[0]), steps[1..]);
    }
  }

  /**
   In every interleaving the offered spans are exactly the queued, batched, exported,
   rejected, dropped and abandoned ones, if and only if the collector never claims to
   reject more than a batch held.
   */
  lemma SpansAreConservedExactly(capacity: nat, batchSize: nat, steps: seq<Step>)
    ensures var p := RunSteps(Start(capacity, batchSize), steps);
            p.offered == Accounted(p) <==> Honest(Start(capacity, batchSize), steps)
  {
    RunBalance(Start(capacity, batchSize), steps);
  }

  // ------------------------------------------------------------- the counters

  /** The sum over a run of what each step adds. */
  function Tally(p: Pipeline, steps: seq<Step>, adds: (Pipeline, Step) -> nat): nat
    decreases |steps|
  {
    if steps == [] then 0 else adds(p, steps[0]) + Tally(Next(p, steps[0]), steps[1..], adds)
  }

  predicate Answers(p: Pipeline, s: Step) {
    s.Send? && p.batch != [] && s.answer.Answered?
  }

  /** The spans of a batch that the collector answered. */
  function AnsweredSpans(): (Pipeline, Step) -> nat {
    (p: Pipeline, s: Step) => if Answers(p, s) then |p.batch| else 0
  }

  /** How many spans the answer says were rejected. */
  function RefusedSpans(): (Pipeline, Step) -> nat {
    (p: Pipeline, s: Step) => if Answers(p, s) then s.answer.rejected else 0
  }

  /** The spans of a batch that got no answer, and a span for which there is no room or no thread. */
  function LostSpans(): (Pipeline, Step) -> nat {
    (p: Pipeline, s: Step) =>
      if s.Send? && s.answer.Failed? then |p.batch|
      else if s.Offer? && (!p.connected || |p.queue| >= p.capacity) then 1
      else 0
  }

  /**
   What each counter means over any run: `rejected` is what the answers say, `dropped` what
   was lost, and `exported` the answered spans without the rejected ones, corrected only by
   what the answers claim beyond their batches.
   */
  lemma {:induction false} CountersMean(p: Pipeline, steps: seq<Step>)
    ensures var p' := RunSteps(p, steps);
            && p'.rejected == p.rejected + Tally(p, steps, RefusedSpans())
            && p'.dropped == p.dropped + Tally(p, steps, LostSpans())
            && p'.exported + Tally(p, steps, RefusedSpans())
               == p.exported + Tally(p, steps, AnsweredSpans()) + Overclaims(p, steps)
    decreases |steps|
  {
    if steps != [] {
      StepCounts(p, steps[0]);
      CountersMean(Next(p, steps[0]), steps[1..]);
    }
  }

  lemma StepCounts(p: Pipeline, s: Step)
    ensures var p' := Next(p, s);
            && p'.rejected == p.rejected + RefusedSpans()(p, s)
            && p'.dropped == p.dropped + LostSpans()(p, s)
            && p'.exported + RefusedSpans()(p, s) == p.exported + AnsweredSpans()(p, s) + Overclaim(p, s)
  {
  }

  /** With an honest collector: `exported` counts the answered spans that were not rejected. */
  lemma HonestCounters(capacity: nat, batchSize: nat, steps: seq<Step>)
    requires Honest(Start(capacity, batchSize), steps)
    ensures var start := Start(capacity, batchSize);
            var p := RunSteps(start, steps);
            && p.rejected == Tally(start, steps, RefusedSpans())
            && p.exported == Tally(start, steps, AnsweredSpans()) - Tally(start, steps, RefusedSpans())
            && p.dropped == Tally(start, steps, LostSpans())
  {
    RunBalance(Start(capacity, batchSize), steps);
    CountersMean(Start(capacity, batchSize), steps);
  }

  /** A span is accepted exactly while the thread lives and the queue has room, and is then the last in it. */
  lemma OfferAcceptsExactly(p: Pipeline, span: Span)
    ensures var p' := Next(p, Offer(span));
            && p'.offered == p.offered + 1
            && (p.connected && |p.queue| < p.capacity ==>
                  p'.queue == p.queue + [span] && p'.accepted == p.accepted + [span] && p'.dropped == p.dropped)
            && (!p.connected || |p.queue| >= p.capacity ==>
                  p'.queue == p.queue && p'.accepted == p.accepted && p'.dropped == p.dropped + 1)
            && p'.errors == p.errors + if p.connected then 0 else 1
  {
  }

  // -------------------------------------------------------------------- order

  /** Accepted spans are sent once each and in order, in batches of one to `batchSize`. */
  ghost predicate InOrder(p: Pipeline) {
    && p.accepted == Concat(p.sent) + p.batch + p.queue + p.abandoned
    && (p.connected ==> p.abandoned == [])
    && (!p.connected ==> p.batch == [] && p.queue == [])
    && |p.queue| <= p.capacity && |p.batch| <= p.batchSize
    && forall i | 0 <= i < |p.sent| :: 1 <= |p.sent[i]| <= p.batchSize
  }

  lemma OfferKeepsOrder(p: Pipeline, span: Span)
    requires InOrder(p)
    ensures InOrder(Next(p, Offer(span)))
  {
    if p.connected {
      Associates(Concat(p.sent) + p.batch, p.queue, [span]);
    }
  }

  lemma TakeKeepsOrder(p: Pipeline)
    requires InOrder(p)
    ensures InOrder(Next(p, Take))
  {
    if p.queue != [] {
      assert p.queue == [p.queue[0]] + p.queue[1..];
      Associates(Concat(p.sent) + p.batch, [p.queue[0]], p.queue[1..]);
      Associates(Concat(p.sent), p.batch, [p.queue[0]]);
    }
  }

  lemma SendKeepsOrder(p: Pipeline, answer: Answer)
    requires InOrder(p)
    ensures InOrder(Next(p, Send(answer)))
  {
    ConcatAppend(p.sent, p.batch);
    assert Concat(p.sent) + p.batch + [] == Concat(p.sent) + p.batch;
  }

  lemma DisconnectKeepsOrder(p: Pipeline)
    requires InOrder(p)
    ensures InOrder(Next(p, Disconnect))
  {
    var sent := Concat(p.sent);
    assert sent + [] + [] == sent;
    if p.connected {
      Associates(sent, p.batch, p.queue);
      assert [] + p.batch + p.queue == p.batch + p.queue;
      assert p.accepted + [] == p.accepted;
    } else {
      assert p.abandoned + [] + [] == p.abandoned;
    }
  }

  lemma StepKeepsOrder(p: Pipeline, s: Step)
    requires InOrder(p)
    ensures InOrder(Next(p, s))
  {
    match s
    case Offer(span) => OfferKeepsOrder(p, span);
    case Take => TakeKeepsOrder(p);
    case Send(answer) => SendKeepsOrder(p, answer);
    case Disconnect => DisconnectKeepsOrder(p);
  }

  lemma {:induction false} RunKeepsOrder(p: Pipeline, steps: seq<Step>)
    requires InOrder(p)
    ensures InOrder(RunSteps(p, steps))
    decreases |steps|
  {
    if steps != [] {
      StepKeepsOrder(p, steps[0]);
      RunKeepsOrder(Next(p, steps[0]), steps[1..]);
    }
  }

  lemma BatchesCarryAcceptedSpans(capacity: nat, batchSize: nat, steps: seq<Step>)
    ensures InOrder(RunSteps(Start(capacity, batchSize), steps))
  {
    RunKeepsOrder(Start(capacity, batchSize), steps);
  }

  // ------------------------------------------------------------------ the code

  /** One wait of the export thread for a further span. */
  datatype Wait = Wait(arrivals: seq<Span>, expired: bool)

  class Exporter {
    const capacity: nat
    const batchSize: nat
    var queue: seq<Span>
    var connected: bool
    var exported: nat
    var rejected: nat
    var dropped: nat
    var errors: nat
    ghost var offered: nat
    ghost var accepted: seq<Span>
    ghost var sent: seq<seq<Span>>
    ghost var abandoned: seq<Span>

    ghost function View(batch: seq<Span>): Pipeline
      reads this
    {
      Pipeline(capacity, batchSize, queue, batch, connected, exported, rejected, dropped, errors,
               offered, accepted, sent, abandoned)
    }

    constructor (capacity: nat, batchSize: nat)
      ensures this.capacity == capacity && this.batchSize == batchSize
      ensures View([]) == Start(capacity, batchSize)
    {
      this.capacity, this.batchSize := capacity, batchSize;
      queue, connected := [], true;
      exported, rejected, dropped, errors := 0, 0, 0, 0;
      offered, accepted, sent, abandoned := 0, [], [], [];
    }

    /** `export`, called by any producer. */
    method Export(span: Span, ghost batch: seq<Span>)
      modifies this
      ensures View(batch) == Next(old(View(batch)), Offer(span))
    {
      offered := offered + 1;
      if connected && |queue| < capacity {
        queue := queue + [span];
        accepted := accepted + [span];
      } else {
        dropped := dropped + 1;
        if !connected {
          errors := errors + 1;
        }
      }
    }

    /** What producers offer one after the other. */
    method ExportAll(spans: seq<Span>, ghost batch: seq<Span>)
      modifies this
      ensures View(batch) == RunSteps(old(View(batch)), Offers(spans))
      ensures connected == old(connected) && old(queue) <= queue
      ensures connected && capacity >= 1 && spans != [] ==> queue != []
    {
      assert Offers(spans[..0]) == [];
      for i := 0 to |spans|
        invariant View(batch) == RunSteps(old(View(batch)), Offers(spans[..i]))
        invariant connected == old(connected) && old(queue) <= queue
        invariant connected && capacity >= 1 && i > 0 ==> queue != []
      {
        Export(spans[i], batch);
        RunExtend(old(View(batch)), Offers(spans[..i]), Offer(spans[i]));
        assert Offers(spans[..i + 1]) == Offers(spans[..i]) + [Offer(spans[i])];
      }
      assert spans[..|spans|] == spans;
    }

    /**
     One turn of `export_loop`, entered when a first span is in the queue: gather until the
     batch is full or the delay is over, then send. Every such turn is a run of the model.
     */
    method ExportBatch(waits: seq<Wait>, answer: Answer) returns (batch: seq<Span>, used: nat, ghost steps: seq<Step>)
      requires connected && queue != [] && batchSize >= 1
      modifies this
      ensures View([]) == RunSteps(old(View([])), steps)
      ensures 1 <= |batch| <= batchSize && sent == old(sent) + [batch]
      ensures steps != [] && steps[|steps| - 1] == Send(answer)
      // It stops gathering only when the batch is full or the time is over.
      ensures used <= |waits| && forall i | 0 <= i < used :: !waits[i].expired
      ensures |batch| == batchSize || used == |waits| || waits[used].expired
      // And each wait during which something arrives adds a span.
      ensures capacity >= 1 && (forall i | 0 <= i < used :: waits[i].arrivals != []) ==> |batch| == 1 + used
    {
      batch, queue := [queue[0]], queue[1..];
      steps := [Take];
      assert RunSteps(old(View([])), [Take]) == RunSteps(Next(old(View([])), Take), []);
      used := 0;
      while |batch| < batchSize && used < |waits| && !waits[used].expired
        invariant connected && 1 <= |batch| <= batchSize && sent == old(sent)
        invariant View(batch) == RunSteps(old(View([])), steps)
        invariant used <= |waits| && forall i | 0 <= i < used :: !waits[i].expired
        invariant capacity >= 1 && (forall i | 0 <= i < used :: waits[i].arrivals != []) ==> |batch| == 1 + used
        decreases |waits| - used
      {
        ghost var arrived := Offers(waits[used].arrivals);
        ExportAll(waits[used].arrivals, batch);
        RunConcat(old(View([])), steps, arrived);
        KeepsHistory(RunSteps(old(View([])), steps), arrived);
        steps := steps + arrived;
        if |queue| > 0 {
          RunExtend(old(View([])), steps, Take);
          steps := steps + [Take];
          batch, queue := batch + [queue[0]], queue[1..];
        }
        used := used + 1;
      }
      SendBatch(batch, answer);
      RunExtend(old(View([])), steps, Send(answer));
      steps := steps + [Send(answer)];
    }

    /** `send` and what is counted for its answer. */
    method SendBatch(batch: seq<Span>, answer: Answer)
      requires batch != []
      modifies this
      ensures View([]) == Next(old(View(batch)), Send(answer))
      ensures sent == old(sent) + [batch]
    {
      match answer {
        case Answered(refused) =>
          exported := exported + SaturatingSub(|batch|, refused);
          rejected := rejected + refused;
        case Failed =>
          errors := errors + 1;
          dropped := dropped + |batch|;
      }
      sent := sent + [batch];
    }
  }

  function Offers(spans: seq<Span>): seq<Step> {
    seq(|spans|, i requires 0 <= i < |spans| => Offer(spans[i]))
  }

  lemma {:induction false} RunConcat(p: Pipeline, a: seq<Step>, b: seq<Step>)
    ensures RunSteps(p, a + b) == RunSteps(RunSteps(p, a), b)
    decreases |a|
  {
    if a == [] {
      assert a + b == b;
    } else {
      assert (a + b)[1..] == a[1..] + b;
      RunConcat(Next(p, a[0]), a[1..], b);
    }
  }

  lemma RunExtend(p: Pipeline, steps: seq<Step>, s: Step)
    ensures RunSteps(p, steps + [s]) == Next(RunSteps(p, steps), s)
  {
    RunConcat(p, steps, [s]);
    var q := RunSteps(p, steps);
    assert RunSteps(q, [s]) == RunSteps(Next(q, s), []);
  }

  lemma {:induction false} KeepsHistory(p: Pipeline, steps: seq<Step>)
    requires forall s | s in steps :: s.Offer?
    ensures RunSteps(p, steps).sent == p.sent && RunSteps(p, steps).batch == p.batch
    decreases |steps|
  {
    if steps != [] {
      assert steps[0] in steps && forall s | s in steps[1..] :: s in steps;
      KeepsHistory(Next(p, steps[0]), steps[1..]);
    }
  }
}
