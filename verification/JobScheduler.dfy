/**
 The background scheduler (scheduler.rs): job threads that share one journal, the file
 behind it, and a process that can crash at any point.

 The journal's lock is held for a whole update and the file is replaced by an atomic
 rename. So an update is one step: it reaches the file or, when any of its steps on the
 file system fails, it stays in memory only.
 */
module JobScheduler {
  import opened Arithmetic
  import opened Outcomes
  import opened Identifiers

  const MAX_U64: nat := 0xFFFF_FFFF_FFFF_FFFF
  const MIN_INTERVAL_MS: nat := 1_000
  const MAX_INTERVAL_MS: nat := 86_400_000

  const PENDING: nat := 1
  const RUNNING: nat := 2

  datatype JobState = JobState(state: nat, nextRunAtMs: nat, attempts: nat)

  datatype Job = Job(
    id: string,
    intervalMs: nat,
    initialDelayMs: nat,
    timeoutMs: nat,
    persistent: bool,
    maximumAttempts: nat,
    retryBackoffMs: nat)

  /** `BackgroundJobConfig::validate`. */
  predicate ValidJob(job: Job) {
    && ValidIdentifier(job.id)
    && MIN_INTERVAL_MS <= job.intervalMs <= MAX_INTERVAL_MS
    && job.initialDelayMs <= MAX_INTERVAL_MS
    && 100 <= job.timeoutMs <= 120_000
    && 1 <= job.maximumAttempts <= 10
    && 100 <= job.retryBackoffMs <= MAX_INTERVAL_MS
  }

  function SaturatingAdd(a: nat, b: nat): nat {
    if a + b > MAX_U64 then MAX_U64 else a + b
  }

  function SaturatingMultiply(a: nat, b: nat): nat {
    if a * b > MAX_U64 then MAX_U64 else a * b
  }

  // --------------------------------------------------------------- the journal

  type States = map<string, JobState>

  /** The map in memory and the file, which may not exist yet. */
  datatype Journal = Journal(states: States, file: Option<States>)

  function Contents(file: Option<States>): States {
    if file.Some? then file.value else map[]
  }

  function Open(file: Option<States>): Journal {
    Journal(Contents(file), file)
  }

  /** What `open_at` finds under the path of the journal. */
  datatype Found = Missing | NotReadable | NotDecodable | Decodes(states: States)

  datatype OpenError = CannotRead | CannotDecode

  /** `update`: the map in memory changes first; `reaches` says whether the rename succeeds. */
  function Updated(j: Journal, id: string, state: JobState, reaches: bool): Journal {
    var states := j.states[id := state];
    Journal(states, if reaches then Some(states) else j.file)
  }

  function StartedState(attempt: nat): JobState {
    JobState(RUNNING, 0, attempt)
  }

  function FinishedState(job: Job, now: nat): JobState {
    JobState(PENDING, SaturatingAdd(now, job.intervalMs), 0)
  }

  /** `initial_delay`. */
  function DelayAtStart(j: Journal, job: Job, now: nat): nat {
    if !job.persistent || job.id !in j.states then job.initialDelayMs
    else if j.states[job.id].state == RUNNING then 0
    else SaturatingSub(j.states[job.id].nextRunAtMs, now)
  }

  // ----------------------------------------------------------- one job thread

  /**
   Where a job thread is: reading its initial delay, the waits, the journal writes, the run
   between them, and the ends of the thread by a stop or by a failed journal write.
   */
  datatype Phase =
    | Starting
    | Waiting(delay: nat)
    | Attempting(attempt: nat)
    | Executing(attempt: nat)
    | BackingOff(attempt: nat)
    | Finishing
    | Resting
    | StoppedWaiting
    | StoppedBackingOff(attempt: nat)
    | StoppedResting
    | FailedStarting(attempt: nat)
    | FailedFinishing

  /** `runs` counts the runs of the job in the present cycle. */
  datatype Thread = Thread(phase: Phase, runs: nat)

  const NEW_THREAD := Thread(Starting, 0)

  /** What the outside decides at a step: a stop, the result of a run, the clock, the disk. */
  datatype Move = Move(stop: bool, success: bool, now: nat, reaches: bool)

  /** The wait before the next attempt: doubled each time, cut off at the largest delay. */
  function Backoff(job: Job, attempt: nat): nat
    requires attempt >= 1
  {
    SaturatingMultiply(job.retryBackoffMs, PowerOfTwo(attempt - 1))
  }

  function PowerOfTwo(n: nat): nat {
    if n == 0 then 1 else 2 * PowerOfTwo(n - 1)
  }

  predicate IsWait(phase: Phase) {
    phase.Waiting? || (phase.BackingOff? && phase.attempt >= 1) || phase.Resting?
  }

  /** How long the thread waits in a phase. */
  function WaitTime(job: Job, phase: Phase): nat
    requires IsWait(phase)
  {
    match phase
    case Waiting(delay) => delay
    case BackingOff(k) => Backoff(job, k)
    case Resting => job.intervalMs
  }

  /** What the thread writes to the journal at this step, if anything. */
  function Writes(job: Job, t: Thread, m: Move): Option<JobState> {
    if !job.persistent then None
    else match t.phase
      case Attempting(k) => Some(StartedState(k))
      case Finishing => Some(FinishedState(job, m.now))
      case _ => None
  }

  function Advance(job: Job, j: Journal, t: Thread, m: Move): Thread {
    var written := !job.persistent || m.reaches;
    match t.phase
    case Starting => t.(phase := Waiting(DelayAtStart(j, job, m.now)))
    case Waiting(_) => if m.stop then t.(phase := StoppedWaiting) else Thread(Attempting(1), 0)
    case Attempting(k) => t.(phase := if written then Executing(k) else FailedStarting(k))
    case Executing(k) =>
      Thread(if !m.success && k < job.maximumAttempts then BackingOff(k) else Finishing, t.runs + 1)
    case BackingOff(k) => t.(phase := if m.stop then StoppedBackingOff(k) else Attempting(k + 1))
    case Finishing => t.(phase := if written then Resting else FailedFinishing)
    case Resting => if m.stop then t.(phase := StoppedResting) else Thread(Attempting(1), 0)
    case _ => t
  }

  function JournalAfter(job: Job, j: Journal, t: Thread, m: Move): Journal {
    var state := Writes(job, t, m);
    if state.Some? then Updated(j, job.id, state.value, m.reaches) else j
  }

  // ---------------------------------------------------------------- the system

  /** One update of the journal by the thread of job `id`. */
  datatype Entry = Entry(id: string, state: JobState, reached: bool)

  /**
   All job threads, over as many processes as crashes make of them. `origin` is what the
   journal held before the first one and `history` is every update since that no crash has
   undone, in order.
   */
  datatype Scheduler = Scheduler(
    jobs: map<string, Job>,
    journal: Journal,
    threads: map<string, Thread>,
    origin: States,
    history: seq<Entry>)

  datatype Step =
    | Act(id: string, move: Move)
    | Crash

  function NewThreads(jobs: map<string, Job>): map<string, Thread> {
    map id | id in jobs :: NEW_THREAD
  }

  function Start(jobs: map<string, Job>, file: Option<States>): Scheduler {
    Scheduler(jobs, Open(file), NewThreads(jobs), Contents(file), [])
  }

  /** The updates up to the last one that reached the file: it published those before it as well. */
  function Published(entries: seq<Entry>): seq<Entry> {
    if entries == [] then []
    else if entries[|entries| - 1].reached then entries
    else Published(entries[..|entries| - 1])
  }

  /** One step of one thread, or a crash, which loses what was not published, and a new start. */
  function Next(s: Scheduler, step: Step): Scheduler {
    match step
    case Crash =>
      s.(journal := Open(s.journal.file), threads := NewThreads(s.jobs), history := Published(s.history))
    case Act(id, m) =>
      if id !in s.jobs || id !in s.threads then s
      else
        var job, t := s.jobs[id], s.threads[id];
        var state := Writes(job, t, m);
        s.(journal := JournalAfter(job, s.journal, t, m),
           threads := s.threads[id := Advance(job, s.journal, t, m)],
           history := if state.Some? then s.history + [Entry(id, state.value, m.reaches)] else s.history)
  }

  function RunSteps(s: Scheduler, steps: seq<Step>): Scheduler
    decreases |steps|
  {
    if steps == [] then s else RunSteps(Next(s, steps[0]), steps[1..])
  }

  // ------------------------------------------------- what the journal must hold

  function Lookup(states: States, id: string): Option<JobState> {
    if id in states then Some(states[id]) else None
  }

  /** The last update of job `id` in `entries`, or what the journal held before them. */
  function LastOwn(origin: States, entries: seq<Entry>, id: string): Option<JobState> {
    if entries == [] then Lookup(origin, id)
    else if entries[|entries| - 1].id == id then Some(entries[|entries| - 1].state)
    else LastOwn(origin, entries[..|entries| - 1], id)
  }

  /** Memory holds every job's own last update; the file holds every job's own last published one. */
  ghost predicate Ledger(s: Scheduler) {
    forall id: string ::
      && Lookup(s.journal.states, id) == LastOwn(s.origin, s.history, id)
      && Lookup(Contents(s.journal.file), id) == LastOwn(s.origin, Published(s.history), id)
  }

  /** Only the persistent jobs write to the journal. */
  ghost predicate OwnEntries(s: Scheduler) {
    forall i | 0 <= i < |s.history| :: s.history[i].id in s.jobs && s.jobs[s.history[i].id].persistent
  }

  /** Runs of the present cycle never exceed the job's attempts. */
  ghost predicate Counted(job: Job, t: Thread) {
    match t.phase
    case Attempting(k) => 1 <= k <= job.maximumAttempts && t.runs == k - 1
    case Executing(k) => 1 <= k <= job.maximumAttempts && t.runs == k - 1
    case FailedStarting(k) => 1 <= k <= job.maximumAttempts && t.runs == k - 1
    case BackingOff(k) => 1 <= k < job.maximumAttempts && t.runs == k
    case StoppedBackingOff(k) => 1 <= k < job.maximumAttempts && t.runs == k
    case _ => t.runs <= job.maximumAttempts
  }

  /** A cycle is open: the start of an attempt was recorded and no end was written after it. */
  predicate MidCycle(t: Thread) {
    match t.phase
    case Attempting(k) => k > 1
    case FailedStarting(k) => k > 1
    case Executing(_) => true
    case BackingOff(_) => true
    case StoppedBackingOff(_) => true
    case Finishing => true
    case _ => false
  }

  ghost predicate Says(states: States, id: string, state: nat) {
    id in states && states[id].state == state
  }

  /** Memory and file know where a persistent job's thread is. */
  ghost predicate Recorded(job: Job, t: Thread, j: Journal) {
    job.persistent ==>
      && (MidCycle(t) ==> Says(j.states, job.id, RUNNING) && Says(Contents(j.file), job.id, RUNNING))
      && (t.phase.Resting? || t.phase.StoppedResting? ==>
            && Says(j.states, job.id, PENDING)
            && Lookup(Contents(j.file), job.id) == Lookup(j.states, job.id))
      && (t.phase.FailedFinishing? ==>
            && Says(j.states, job.id, PENDING)
            && (Says(Contents(j.file), job.id, RUNNING)
                || Lookup(Contents(j.file), job.id) == Lookup(j.states, job.id)))
  }

  ghost predicate Invariant(s: Scheduler) {
    && s.threads.Keys == s.jobs.Keys
    && Ledger(s)
    && OwnEntries(s)
    && forall id | id in s.jobs ::
         && s.jobs[id].id == id && ValidJob(s.jobs[id])
         && Counted(s.jobs[id], s.threads[id])
         && Recorded(s.jobs[id], s.threads[id], s.journal)
  }

  /** The jobs of a validated bootstrap, by their ids. */
  ghost predicate ValidJobs(jobs: map<string, Job>) {
    forall id | id in jobs :: jobs[id].id == id && ValidJob(jobs[id])
  }

  lemma StartInvariant(jobs: map<string, Job>, file: Option<States>)
    requires ValidJobs(jobs)
    ensures Invariant(Start(jobs, file))
  {
  }

  lemma {:induction false} PublishedTwice(entries: seq<Entry>)
    ensures Published(Published(entries)) == Published(entries) <= entries
  {
    if entries != [] && !entries[|entries| - 1].reached {
      PublishedTwice(entries[..|entries| - 1]);
    }
  }

  /** A crash keeps the ledger: what memory loses is exactly what was not published. */
  lemma CrashInvariant(s: Scheduler)
    requires Invariant(s)
    ensures Invariant(Next(s, Crash))
  {
    var s' := Next(s, Crash);
    PublishedTwice(s.history);
    forall i | 0 <= i < |s'.history|
      ensures s'.history[i].id in s.jobs && s.jobs[s'.history[i].id].persistent
    {
      assert s'.history[i] == s.history[i];
    }
    forall id: string
      ensures Lookup(s'.journal.states, id) == LastOwn(s'.origin, s'.history, id)
      ensures Lookup(Contents(s'.journal.file), id) == LastOwn(s'.origin, Published(s'.history), id)
    {
      assert Lookup(Contents(s.journal.file), id) == LastOwn(s.origin, Published(s.history), id);
    }
  }

  lemma LedgerAppend(s: Scheduler, entry: Entry)
    requires Ledger(s)
    ensures Ledger(s.(journal := Updated(s.journal, entry.id, entry.state, entry.reached),
                      history := s.history + [entry]))
  {
    var s' := s.(journal := Updated(s.journal, entry.id, entry.state, entry.reached),
                 history := s.history + [entry]);
    assert s'.history[..|s'.history| - 1] == s.history;
    forall id: string
      ensures Lookup(s'.journal.states, id) == LastOwn(s'.origin, s'.history, id)
      ensures Lookup(Contents(s'.journal.file), id) == LastOwn(s'.origin, Published(s'.history), id)
    {
      assert Lookup(s.journal.states, id) == LastOwn(s.origin, s.history, id);
    }
  }

  /** A thread's own step keeps its place recorded. */
  lemma OwnStepRecorded(job: Job, t: Thread, j: Journal, m: Move)
    requires ValidJob(job) && Counted(job, t) && Recorded(job, t, j)
    ensures Counted(job, Advance(job, j, t, m))
    ensures Recorded(job, Advance(job, j, t, m), JournalAfter(job, j, t, m))
  {
  }

  /** Another thread's step never changes this job's entry, but it may publish it. */
  lemma OtherStepRecorded(job: Job, t: Thread, j: Journal, id: string, state: JobState, reaches: bool)
    requires Recorded(job, t, j) && id != job.id
    ensures Recorded(job, t, Updated(j, id, state, reaches))
  {
  }

  lemma ActLedger(s: Scheduler, id: string, m: Move)
    requires Invariant(s)
    ensures Ledger(Next(s, Act(id, m))) && OwnEntries(Next(s, Act(id, m)))
  {
    if id in s.jobs {
      var state := Writes(s.jobs[id], s.threads[id], m);
      if state.Some? {
        LedgerAppend(s, Entry(id, state.value, m.reaches));
        var s' := Next(s, Act(id, m));
        assert s'.history == s.history + [Entry(id, state.value, m.reaches)];
        forall k: string
          ensures Lookup(s'.journal.states, k) == LastOwn(s'.origin, s'.history, k)
          ensures Lookup(Contents(s'.journal.file), k) == LastOwn(s'.origin, Published(s'.history), k)
        {
        }
      }
    }
  }

  lemma ActRecorded(s: Scheduler, actor: string, m: Move, id: string)
    requires Invariant(s) && id in s.jobs
    ensures var s' := Next(s, Act(actor, m));
            id in s'.threads && Counted(s.jobs[id], s'.threads[id]) && Recorded(s.jobs[id], s'.threads[id], s'.journal)
  {
    if actor in s.jobs {
      if actor == id {
        OwnStepRecorded(s.jobs[id], s.threads[id], s.journal, m);
      } else {
        var state := Writes(s.jobs[actor], s.threads[actor], m);
        if state.Some? {
          OtherStepRecorded(s.jobs[id], s.threads[id], s.journal, actor, state.value, m.reaches);
        }
      }
    }
  }

  lemma StepKeepsInvariant(s: Scheduler, step: Step)
    requires Invariant(s)
    ensures Invariant(Next(s, step))
    ensures Next(s, step).jobs == s.jobs && Next(s, step).origin == s.origin
  {
    match step {
      case Crash => CrashInvariant(s);
      case Act(actor, m) =>
        ActLedger(s, actor, m);
        forall id | id in s.jobs
          ensures Counted(s.jobs[id], Next(s, step).threads[id])
          ensures Recorded(s.jobs[id], Next(s, step).threads[id], Next(s, step).journal)
        {
          ActRecorded(s, actor, m, id);
        }
    }
  }

  lemma {:induction false} RunKeepsInvariant(s: Scheduler, steps: seq<Step>)
    requires Invariant(s)
    ensures Invariant(RunSteps(s, steps))
    ensures RunSteps(s, steps).jobs == s.jobs && RunSteps(s, steps).origin == s.origin
    decreases |steps|
  {
    if steps != [] {
      StepKeepsInvariant(s, steps[0]);
      RunKeepsInvariant(Next(s, steps[0]), steps[1..]);
    }
  }

  // ------------------------------------------------------------ the main results

  /**
   Any interleaving of the threads, with crashes, restarts and disk failures anywhere: the
   journal reopened afterwards holds, for each job, that job's own last published update of
   the whole run, whichever process made it; and for a name that is no persistent job's,
   what the file held at the beginning.
   */
  lemma ReopenedJournalHoldsOwnUpdates(jobs: map<string, Job>, file: Option<States>, steps: seq<Step>, id: string)
    requires ValidJobs(jobs)
    ensures var s := RunSteps(Start(jobs, file), steps);
            var reopened := Open(s.journal.file);
            && Lookup(reopened.states, id) == LastOwn(Contents(file), Published(s.history), id)
            && (id !in jobs || !jobs[id].persistent ==>
                  Lookup(reopened.states, id) == Lookup(Contents(file), id))
  {
    StartInvariant(jobs, file);
    RunKeepsInvariant(Start(jobs, file), steps);
    var s := RunSteps(Start(jobs, file), steps);
    if id !in jobs || !jobs[id].persistent {
      PublishedTwice(s.history);
      NoOwnEntry(Contents(file), Published(s.history), id);
    }
  }

  lemma {:induction false} NoOwnEntry(origin: States, entries: seq<Entry>, id: string)
    requires forall i | 0 <= i < |entries| :: entries[i].id != id
    ensures LastOwn(origin, entries, id) == Lookup(origin, id)
  {
    if entries != [] {
      NoOwnEntry(origin, entries[..|entries| - 1], id);
    }
  }

  /** Nothing in these steps is done by job `id` itself. */
  ghost predicate ByOthers(steps: seq<Step>, id: string) {
    forall i | 0 <= i < |steps| :: steps[i].Crash? || steps[i].id != id
  }

  lemma NewThreadWaits(s: Scheduler, step: Step, id: string)
    requires Invariant(s) && id in s.jobs && s.threads[id] == NEW_THREAD && (step.Crash? || step.id != id)
    requires Lookup(s.journal.states, id) == Lookup(Contents(s.journal.file), id)
    ensures var s' := Next(s, step);
            && id in s'.threads && s'.threads[id] == NEW_THREAD
            && Lookup(s'.journal.states, id) == Lookup(Contents(s'.journal.file), id) == Lookup(s.journal.states, id)
  {
  }

  /** Until a new thread reads its delay, nobody changes the entry it will find. */
  lemma {:induction false} EntryWaitsForThread(s: Scheduler, steps: seq<Step>, id: string)
    requires Invariant(s) && id in s.jobs && s.threads[id] == NEW_THREAD && ByOthers(steps, id)
    requires Lookup(s.journal.states, id) == Lookup(Contents(s.journal.file), id)
    ensures var s' := RunSteps(s, steps);
            && Invariant(s') && s'.jobs == s.jobs && s'.threads[id] == NEW_THREAD
            && Lookup(s'.journal.states, id) == Lookup(s.journal.states, id)
    decreases |steps|
  {
    if steps != [] {
      StepKeepsInvariant(s, steps[0]);
      NewThreadWaits(s, steps[0], id);
      EntryWaitsForThread(Next(s, steps[0]), steps[1..], id);
    }
  }

  /** The wait with which job `id` begins after a crash, whatever happens before it gets to run. */
  function WaitAfterCrash(s: Scheduler, between: seq<Step>, id: string, m: Move): Option<Thread> {
    var threads := Next(RunSteps(Next(s, Crash), between), Act(id, m)).threads;
    if id in threads then Some(threads[id]) else None
  }

  lemma RestartReadsFile(s: Scheduler, between: seq<Step>, id: string, m: Move)
    requires Invariant(s) && id in s.jobs && ByOthers(between, id)
    ensures WaitAfterCrash(s, between, id, m)
         == Some(Thread(Waiting(DelayAtStart(Open(s.journal.file), s.jobs[id], m.now)), 0))
  {
    var crashed := Next(s, Crash);
    StepKeepsInvariant(s, Crash);
    EntryWaitsForThread(crashed, between, id);
    var s' := RunSteps(crashed, between);
    assert Lookup(s'.journal.states, id) == Lookup(Contents(s.journal.file), id);
    assert s.jobs[id].id == id;
  }

  /**
   A crash in the middle of a persistent job's cycle, after any run: the restarted thread
   begins with a wait of zero, whatever the others do before it, and the interrupted cycle
   had run the job at most `maximumAttempts` times.
   */
  lemma InterruptedCycleRestartsAtOnce(jobs: map<string, Job>, file: Option<States>, steps: seq<Step>,
                                       between: seq<Step>, id: string, m: Move)
    requires ValidJobs(jobs) && id in jobs && jobs[id].persistent && ByOthers(between, id)
    ensures var s := RunSteps(Start(jobs, file), steps);
            id in s.threads && s.threads[id].runs <= jobs[id].maximumAttempts &&
            (MidCycle(s.threads[id]) ==> WaitAfterCrash(s, between, id, m) == Some(Thread(Waiting(0), 0)))
  {
    StartInvariant(jobs, file);
    RunKeepsInvariant(Start(jobs, file), steps);
    var s := RunSteps(Start(jobs, file), steps);
    assert Counted(s.jobs[id], s.threads[id]);
    assert Recorded(s.jobs[id], s.threads[id], s.journal);
    RestartReadsFile(s, between, id, m);
  }

  // ------------------------------------------------------------- what is recorded

  /** Memory and file agree on what job `id` recorded. */
  ghost predicate Agreed(s: Scheduler, id: string, state: Option<JobState>) {
    Lookup(s.journal.states, id) == Lookup(Contents(s.journal.file), id) == state
  }

  lemma OthersKeepEntry(s: Scheduler, step: Step, id: string, state: Option<JobState>)
    requires Invariant(s) && Agreed(s, id, state) && (step.Crash? || step.id != id)
    ensures Agreed(Next(s, step), id, state)
  {
  }

  /** What others do, crashes included, never changes what a job has recorded. */
  lemma {:induction false} RecordStays(s: Scheduler, steps: seq<Step>, id: string, state: Option<JobState>)
    requires Invariant(s) && Agreed(s, id, state) && ByOthers(steps, id)
    ensures var s' := RunSteps(s, steps);
            Invariant(s') && s'.jobs == s.jobs && Agreed(s', id, state)
    decreases |steps|
  {
    if steps != [] {
      StepKeepsInvariant(s, steps[0]);
      OthersKeepEntry(s, steps[0], id, state);
      RecordStays(Next(s, steps[0]), steps[1..], id, state);
    }
  }

  /** When the next cycle is due, the clock stopping at its largest value. */
  function Due(end: nat, interval: nat): nat {
    if end + interval > MAX_U64 then MAX_U64 else end + interval
  }

  lemma FinishIsRecorded(s: Scheduler, id: string, finish: Move)
    requires Invariant(s) && id in s.jobs && s.jobs[id].persistent && s.threads[id].phase.Finishing?
    requires finish.reaches
    ensures Agreed(Next(s, Act(id, finish)), id,
                   Some(JobState(PENDING, Due(finish.now, s.jobs[id].intervalMs), 0)))
  {
    assert s.jobs[id].id == id;
  }

  lemma DelayOfPending(file: Option<States>, job: Job, due: nat, now: nat)
    requires job.persistent && Lookup(Contents(file), job.id) == Some(JobState(PENDING, due, 0))
    ensures DelayAtStart(Open(file), job, now) == if due > now then due - now else 0
  {
  }

  lemma PendingWaits(s: Scheduler, between: seq<Step>, id: string, due: nat, m: Move)
    requires Invariant(s) && id in s.jobs && s.jobs[id].persistent && ByOthers(between, id)
    requires Agreed(s, id, Some(JobState(PENDING, due, 0)))
    ensures WaitAfterCrash(s, between, id, m)
         == Some(Thread(Waiting(if due > m.now then due - m.now else 0), 0))
  {
    RestartReadsFile(s, between, id, m);
    assert s.jobs[id].id == id;
    DelayOfPending(s.journal.file, s.jobs[id], due, m.now);
  }

  lemma RecordedEndWaits(s: Scheduler, meanwhile: seq<Step>, between: seq<Step>, id: string, due: nat, m: Move)
    requires Invariant(s) && id in s.jobs && s.jobs[id].persistent && ByOthers(meanwhile, id) && ByOthers(between, id)
    requires Agreed(s, id, Some(JobState(PENDING, due, 0)))
    ensures WaitAfterCrash(RunSteps(s, meanwhile), between, id, m)
         == Some(Thread(Waiting(if due > m.now then due - m.now else 0), 0))
  {
    RecordStays(s, meanwhile, id, Some(JobState(PENDING, due, 0)));
    PendingWaits(RunSteps(s, meanwhile), between, id, due, m);
  }

  /**
   A persistent job ends its cycle and the record reaches the file; whatever
   the others do meanwhile, after a crash, and before the thread runs again,
   its first wait is what is left of the interval since the end of the cycle.
   */
  lemma FinishedCycleWaitsRest(s: Scheduler, id: string, finish: Move, meanwhile: seq<Step>, between: seq<Step>, m: Move)
    requires Invariant(s) && id in s.jobs && s.jobs[id].persistent && s.threads[id].phase.Finishing?
    requires finish.reaches && ByOthers(meanwhile, id) && ByOthers(between, id)
    ensures var crashed := RunSteps(Next(s, Act(id, finish)), meanwhile);
            var due := Due(finish.now, s.jobs[id].intervalMs);
            WaitAfterCrash(crashed, between, id, m)
            == Some(Thread(Waiting(if due > m.now then due - m.now else 0), 0))
  {
    StepKeepsInvariant(s, Act(id, finish));
    FinishIsRecorded(s, id, finish);
    RecordedEndWaits(Next(s, Act(id, finish)), meanwhile, between, id, Due(finish.now, s.jobs[id].intervalMs), m);
  }

  /** The start of an attempt is on disk, with its number, before the job runs. */
  lemma AttemptIsRecorded(s: Scheduler, id: string, m: Move, k: nat)
    requires Invariant(s) && id in s.jobs && s.jobs[id].persistent && s.threads[id].phase == Attempting(k)
    ensures var s' := Next(s, Act(id, m));
            s'.threads[id].phase == Executing(k) ==>
              id in Contents(s'.journal.file) && Contents(s'.journal.file)[id] == JobState(RUNNING, 0, k)
  {
    assert s.jobs[id].id == id;
  }

  /** A job of which the file knows nothing, and any job that is not persistent, begins with its own delay. */
  lemma UnknownJobWaitsInitially(s: Scheduler, between: seq<Step>, id: string, m: Move)
    requires Invariant(s) && id in s.jobs && ByOthers(between, id)
    requires !s.jobs[id].persistent || id !in Contents(s.journal.file)
    ensures WaitAfterCrash(s, between, id, m) == Some(Thread(Waiting(s.jobs[id].initialDelayMs), 0))
  {
    RestartReadsFile(s, between, id, m);
    assert s.jobs[id].id == id;
  }

  /** A crash between two cycles: the restarted thread waits for the recorded deadline, not longer. */
  lemma RestingJobKeepsItsDeadline(s: Scheduler, between: seq<Step>, id: string, m: Move)
    requires Invariant(s) && id in s.jobs && s.jobs[id].persistent && ByOthers(between, id)
    requires s.threads[id].phase.Resting? || s.threads[id].phase.StoppedResting?
    ensures id in s.journal.states
    ensures WaitAfterCrash(s, between, id, m)
         == Some(Thread(Waiting(SaturatingSub(s.journal.states[id].nextRunAtMs, m.now)), 0))
  {
    assert Recorded(s.jobs[id], s.threads[id], s.journal);
    RestartReadsFile(s, between, id, m);
  }

  /**
   The end of a cycle could not be written: the restarted thread waits for the deadline if
   another job's update has since published the record, and otherwise begins at once.
   */
  lemma UnwrittenEndRestartsExactly(s: Scheduler, between: seq<Step>, id: string, m: Move)
    requires Invariant(s) && id in s.jobs && s.jobs[id].persistent && ByOthers(between, id)
    requires s.threads[id].phase.FailedFinishing?
    ensures id in s.journal.states
    ensures var published := Lookup(Contents(s.journal.file), id) == Some(s.journal.states[id]);
            var delay := if published then SaturatingSub(s.journal.states[id].nextRunAtMs, m.now) else 0;
            WaitAfterCrash(s, between, id, m) == Some(Thread(Waiting(delay), 0))
  {
    assert Recorded(s.jobs[id], s.threads[id], s.journal);
    RestartReadsFile(s, between, id, m);
  }

  /**
   Where a stop during attempt `k` leaves the thread, whether the run still succeeds and
   whether the disk works or not. It ends in the middle of its cycle exactly when the run
   failed and was not the last one: a stop during the last attempt still ends the cycle.
   */
  lemma StopEndsTheThread(job: Job, j: Journal, t: Thread, k: nat, first: Move, second: Move, third: Move)
    requires t.phase == Executing(k) && second.stop && third.stop
    ensures var retried := !first.success && k < job.maximumAttempts;
            var t1 := Advance(job, j, t, first);
            var j2, t2 := JournalAfter(job, j, t1, second), Advance(job, j, t1, second);
            var ended := Advance(job, j2, t2, third);
            && ended.phase == (if retried then StoppedBackingOff(k)
                               else if job.persistent && !second.reaches then FailedFinishing
                               else StoppedResting)
            && (MidCycle(ended) <==> retried)
  {
    var t1 := Advance(job, j, t, first);
    assert t1.phase == if !first.success && k < job.maximumAttempts then BackingOff(k) else Finishing;
  }

  /**
   What a graceful stop leaves for the next start, whatever the other threads did: before
   the recorded deadline the job runs at once exactly when its thread was stopped between
   two attempts of a cycle.
   */
  lemma StoppedJobRecoversExactly(s: Scheduler, between: seq<Step>, id: string, m: Move)
    requires Invariant(s) && id in s.jobs && s.jobs[id].persistent && ByOthers(between, id)
    requires s.threads[id].phase.StoppedBackingOff? || s.threads[id].phase.StoppedResting?
    requires s.threads[id].phase.StoppedResting? ==>
               id in s.journal.states && m.now < s.journal.states[id].nextRunAtMs
    ensures WaitAfterCrash(s, between, id, m) == Some(Thread(Waiting(0), 0)) <==> MidCycle(s.threads[id])
  {
    assert Recorded(s.jobs[id], s.threads[id], s.journal);
    RestartReadsFile(s, between, id, m);
  }

  // --------------------------------------------------------- undisturbed cycles

  /** No stop and a working disk. */
  ghost predicate Undisturbed(moves: seq<Move>) {
    forall i | 0 <= i < |moves| :: !moves[i].stop && moves[i].reaches
  }

  /** One attempt of an undisturbed cycle: the record, the run, and after a failure the wait. */
  lemma AttemptEnds(job: Job, j: Journal, k: nat, record: Move, run: Move, wait: Move)
    requires 1 <= k <= job.maximumAttempts && Undisturbed([record, run, wait])
    ensures var t1 := Advance(job, j, Thread(Attempting(k), k - 1), record);
            var t2 := Advance(job, JournalAfter(job, j, Thread(Attempting(k), k - 1), record), t1, run);
            && t1 == Thread(Executing(k), k - 1)
            && (run.success || k == job.maximumAttempts ==> t2 == Thread(Finishing, k))
            && (!run.success && k < job.maximumAttempts ==>
                  && t2 == Thread(BackingOff(k), k)
                  && WaitTime(job, t2.phase) == Backoff(job, k)
                  && forall j' :: Advance(job, j', t2, wait) == Thread(Attempting(k + 1), k))
  {
    assert [record, run, wait][0] == record && [record, run, wait][2] == wait;
  }

  lemma AloneThree(job: Job, j: Journal, t: Thread, a: Move, b: Move, c: Move, more: seq<Move>)
    ensures var j1, t1 := JournalAfter(job, j, t, a), Advance(job, j, t, a);
            var j2, t2 := JournalAfter(job, j1, t1, b), Advance(job, j1, t1, b);
            && Alone(job, j, t, [a, b]) == (j2, t2)
            && Alone(job, j, t, [a, b, c] + more)
               == Alone(job, JournalAfter(job, j2, t2, c), Advance(job, j2, t2, c), more)
  {
    var j1, t1 := JournalAfter(job, j, t, a), Advance(job, j, t, a);
    var j2, t2 := JournalAfter(job, j1, t1, b), Advance(job, j1, t1, b);
    assert [a, b][1..] == [b] && [b][1..] == [];
    assert Alone(job, j2, t2, []) == (j2, t2);
    var all := [a, b, c] + more;
    assert all[1..] == [b, c] + more && all[1..][1..] == [c] + more && all[1..][1..][1..] == more;
    assert Alone(job, j2, t2, [c] + more) == Alone(job, JournalAfter(job, j2, t2, c), Advance(job, j2, t2, c), more);
  }

  /**
   An undisturbed cycle of which every run but the last fails runs the job until that one,
   which succeeds or is the last that is allowed: never fewer runs, never more.
   */
  lemma {:induction false} CycleRunsUntilSuccess(job: Job, j: Journal, k: nat, runs: nat, moves: seq<Move>)
    requires 1 <= k && 1 <= runs && k + runs - 1 <= job.maximumAttempts
    requires |moves| == 3 * runs - 1 && Undisturbed(moves)
    requires forall i | 0 <= i < runs - 1 :: !moves[3 * i + 1].success
    requires moves[3 * (runs - 1) + 1].success || k + runs - 1 == job.maximumAttempts
    ensures Alone(job, j, Thread(Attempting(k), k - 1), moves).1 == Thread(Finishing, k + runs - 1)
    decreases runs
  {
    var t := Thread(Attempting(k), k - 1);
    if runs == 1 {
      var calm := Move(false, false, 0, true);
      AttemptEnds(job, j, k, moves[0], moves[1], calm);
      AloneThree(job, j, t, moves[0], moves[1], calm, []);
      assert moves == [moves[0], moves[1]];
    } else {
      var rest := moves[3..];
      assert moves == [moves[0], moves[1], moves[2]] + rest;
      assert !moves[3 * 0 + 1].success;
      AttemptEnds(job, j, k, moves[0], moves[1], moves[2]);
      AloneThree(job, j, t, moves[0], moves[1], moves[2], rest);
      forall i | 0 <= i < runs - 2
        ensures !rest[3 * i + 1].success
      {
        assert rest[3 * i + 1] == moves[3 * (i + 1) + 1];
      }
      assert rest[3 * (runs - 2) + 1] == moves[3 * (runs - 1) + 1];
      var j1 := JournalAfter(job, j, t, moves[0]);
      var t1 := Advance(job, j, t, moves[0]);
      var j2, t2 := JournalAfter(job, j1, t1, moves[1]), Advance(job, j1, t1, moves[1]);
      CycleRunsUntilSuccess(job, JournalAfter(job, j2, t2, moves[2]), k + 1, runs - 1, rest);
    }
  }

  /** The end of a cycle: the thread rests for the interval and begins again with a first attempt. */
  lemma CycleRests(job: Job, j: Journal, t: Thread, finish: Move, wake: Move)
    requires t.phase.Finishing? && Undisturbed([finish, wake])
    ensures var t1 := Advance(job, j, t, finish);
            && t1.phase == Resting && WaitTime(job, t1.phase) == job.intervalMs
            && Advance(job, JournalAfter(job, j, t, finish), t1, wake) == Thread(Attempting(1), 0)
  {
    assert [finish, wake][0] == finish && [finish, wake][1] == wake;
  }

  /** The first retry waits the configured delay, and each further one twice as long, below the limit of the clock. */
  lemma BackoffDoubles(job: Job, attempt: nat)
    requires ValidJob(job) && 1 <= attempt < job.maximumAttempts
    ensures Backoff(job, 1) == job.retryBackoffMs
    ensures Backoff(job, attempt + 1) == 2 * Backoff(job, attempt)
    ensures job.retryBackoffMs <= Backoff(job, attempt) < MAX_U64
  {
    var base, power := job.retryBackoffMs, PowerOfTwo(attempt - 1);
    PowerBound(attempt - 1);
    ProductBounds(base, power);
    assert PowerOfTwo(attempt) == 2 * power;
    assert base * (2 * power) == 2 * (base * power);
  }

  lemma ProductBounds(base: nat, power: nat)
    requires base <= MAX_INTERVAL_MS && 1 <= power <= 256
    ensures base <= base * power <= MAX_INTERVAL_MS * 256
  {
    ScaleMonotone(1, power, base);
    ScaleMonotone(base, MAX_INTERVAL_MS, power);
  }

  lemma ScaleMonotone(a: nat, b: nat, c: nat)
    requires a <= b
    ensures a * c <= b * c
  {
  }

  lemma PowerBound(n: nat)
    requires n <= 8
    ensures 1 <= PowerOfTwo(n) <= 256
  {
    assert PowerOfTwo(4) == 16 && PowerOfTwo(8) == 256;
  }

  // ------------------------------------------------------------------ the code

  /** Where the five steps of an update can fail: only a completed rename changes the file. */
  datatype Disk = Works | NoDirectory | NotEncoded | NotCreated | NotWritten | NotRenamed

  class JobJournal {
    var states: States
    var file: Option<States>

    ghost function View(): Journal
      reads this
    {
      Journal(states, file)
    }

    constructor (file: Option<States>)
      ensures View() == Open(file)
    {
      this.states := Contents(file);
      this.file := file;
    }

    /** `open_at`: a file that cannot be read or decoded is an error, a missing one is empty. */
    static method OpenAt(found: Found) returns (r: Result<JobJournal, OpenError>)
      ensures r.Ok? <==> found.Missing? || found.Decodes?
      ensures r.Ok? ==> fresh(r.value) && r.value.View() == Open(if found.Missing? then None else Some(found.states))
      ensures r == Err(CannotRead) <==> found.NotReadable?
    {
      match found {
        case Missing =>
          var journal := new JobJournal(None);
          r := Ok(journal);
        case NotReadable => r := Err(CannotRead);
        case NotDecodable => r := Err(CannotDecode);
        case Decodes(states) =>
          var journal := new JobJournal(Some(states));
          r := Ok(journal);
      }
    }

    /** `initial_delay`. */
    method InitialDelay(job: Job, now: nat) returns (delay: nat)
      ensures delay == DelayAtStart(View(), job, now)
    {
      if !job.persistent || job.id !in states {
        return job.initialDelayMs;
      }
      var state := states[job.id];
      if state.state == RUNNING {
        return 0;
      }
      return SaturatingSub(state.nextRunAtMs, now);
    }

    method Update(id: string, state: JobState, disk: Disk) returns (ok: bool)
      modifies this
      ensures ok == disk.Works?
      ensures View() == Updated(old(View()), id, state, ok)
    {
      states := states[id := state];
      ok := false;
      if !disk.NoDirectory? && !disk.NotEncoded? {
        var bytes := states;
        if !disk.NotCreated? && !disk.NotWritten? {
          var temporary := Some(bytes);
          if !disk.NotRenamed? {
            file := temporary;
            ok := true;
          }
        }
      }
    }

    method Started(job: Job, attempt: nat, disk: Disk) returns (ok: bool)
      modifies this
      ensures ok == (!job.persistent || disk.Works?)
      ensures View() == if job.persistent
                        then Updated(old(View()), job.id, StartedState(attempt), ok)
                        else old(View())
    {
      if !job.persistent {
        return true;
      }
      ok := Update(job.id, StartedState(attempt), disk);
    }

    method Finished(job: Job, now: nat, disk: Disk) returns (ok: bool)
      modifies this
      ensures ok == (!job.persistent || disk.Works?)
      ensures View() == if job.persistent
                        then Updated(old(View()), job.id, FinishedState(job, now), ok)
                        else old(View())
    {
      if !job.persistent {
        return true;
      }
      ok := Update(job.id, FinishedState(job, now), disk);
    }
  }

  /** A thread alone with its journal, as the interleaved steps above move it. */
  function Alone(job: Job, j: Journal, t: Thread, moves: seq<Move>): (Journal, Thread)
    decreases |moves|
  {
    if moves == [] then (j, t)
    else Alone(job, JournalAfter(job, j, t, moves[0]), Advance(job, j, t, moves[0]), moves[1..])
  }

  lemma {:induction false} AloneExtend(job: Job, j: Journal, t: Thread, moves: seq<Move>, m: Move)
    ensures var (j', t') := Alone(job, j, t, moves);
            Alone(job, j, t, moves + [m]) == (JournalAfter(job, j', t', m), Advance(job, j', t', m))
    decreases |moves|
  {
    if moves == [] {
      assert ([m])[1..] == [];
      assert moves + [m] == [m];
      assert Alone(job, j, t, [m]) == Alone(job, JournalAfter(job, j, t, m), Advance(job, j, t, m), []);
    } else {
      assert (moves + [m])[1..] == moves[1..] + [m];
      AloneExtend(job, JournalAfter(job, j, t, moves[0]), Advance(job, j, t, moves[0]), moves[1..], m);
    }
  }

  predicate Halted(t: Thread) {
    || t.phase.StoppedWaiting? || t.phase.StoppedBackingOff? || t.phase.StoppedResting?
    || t.phase.FailedStarting? || t.phase.FailedFinishing?
  }

  lemma {:induction false} AloneHalted(job: Job, j: Journal, t: Thread, moves: seq<Move>, more: seq<Move>)
    requires Halted(Alone(job, j, t, moves).1)
    ensures Alone(job, j, t, moves + more) == Alone(job, j, t, moves)
    decreases |more|
  {
    if more == [] {
      assert moves + more == moves;
    } else {
      AloneExtend(job, j, t, moves, more[0]);
      assert moves + more == moves + [more[0]] + more[1..];
      AloneHalted(job, j, t, moves + [more[0]], more[1..]);
    }
  }

  /**
   The code of a job thread. Each wait, run and journal write takes the next of `moves`;
   when they are used up the process is cut off there.
   */
  class JobRunner {
    const job: Job
    const journal: JobJournal
    const moves: seq<Move>
    ghost const start: Journal
    var used: nat
    ghost var thread: Thread

    /** So far the code is where the steps of the model take a thread. */
    ghost predicate Following()
      reads this, journal
    {
      && used <= |moves|
      && (journal.View(), thread) == Alone(job, start, NEW_THREAD, moves[..used])
    }

    constructor (job: Job, journal: JobJournal, moves: seq<Move>)
      ensures this.job == job && this.journal == journal && this.moves == moves
      ensures start == journal.View() && Following() && thread == NEW_THREAD && used == 0
    {
      this.job, this.journal, this.moves, this.start := job, journal, moves, journal.View();
      this.used, this.thread := 0, NEW_THREAD;
      new;
      assert moves[..0] == [];
    }

    lemma Extend()
      requires used < |moves|
      ensures var (j', t') := Alone(job, start, NEW_THREAD, moves[..used]);
              Alone(job, start, NEW_THREAD, moves[..used + 1])
              == (JournalAfter(job, j', t', moves[used]), Advance(job, j', t', moves[used]))
    {
      assert moves[..used + 1] == moves[..used] + [moves[used]];
      AloneExtend(job, start, NEW_THREAD, moves[..used], moves[used]);
    }

    /** The initial delay, by the clock at the start of the thread. */
    method StartDelay() returns (cutOff: bool, delay: nat)
      requires Following() && thread == NEW_THREAD
      modifies this`used, this`thread
      ensures Following() && cutOff == (old(used) == |moves|)
      ensures if cutOff then used == old(used) && thread == old(thread)
              else used == old(used) + 1 && thread == Thread(Waiting(delay), 0)
    {
      cutOff, delay := used == |moves|, 0;
      if !cutOff {
        Extend();
        delay := journal.InitialDelay(job, moves[used].now);
        thread := Advance(job, journal.View(), thread, moves[used]);
        used := used + 1;
      }
    }

    /** `wait_or_stop`: wait for the time that is due in this phase, or for a stop. */
    method WaitOrStop(delay: nat) returns (cutOff: bool, stop: bool)
      requires Following() && IsWait(thread.phase) && delay == WaitTime(job, thread.phase)
      modifies this`used, this`thread
      ensures Following() && cutOff == (old(used) == |moves|)
      ensures if cutOff then used == old(used) && thread == old(thread)
              else used == old(used) + 1 && stop == moves[old(used)].stop
                   && thread == Advance(job, old(journal.View()), old(thread), moves[old(used)])
    {
      cutOff, stop := used == |moves|, false;
      if !cutOff {
        Extend();
        stop := moves[used].stop;
        thread := Advance(job, journal.View(), thread, moves[used]);
        used := used + 1;
      }
    }

    /** `run_job`: false when the job fails, times out, is cancelled or finds the stop flag set. */
    method RunJob() returns (cutOff: bool, success: bool)
      requires Following() && thread.phase.Executing?
      modifies this`used, this`thread
      ensures Following() && cutOff == (old(used) == |moves|)
      ensures if cutOff then used == old(used) && thread == old(thread)
              else used == old(used) + 1 && success == moves[old(used)].success
                   && thread == Advance(job, old(journal.View()), old(thread), moves[old(used)])
    {
      cutOff, success := used == |moves|, false;
      if !cutOff {
        Extend();
        success := moves[used].success;
        thread := Advance(job, journal.View(), thread, moves[used]);
        used := used + 1;
      }
    }

    /** Record the start of an attempt or the end of a cycle. */
    method Record(attempt: Option<nat>) returns (cutOff: bool, ok: bool)
      requires Following()
      requires thread.phase == (if attempt.Some? then Attempting(attempt.value) else Finishing)
      modifies this`used, this`thread, journal
      ensures Following() && cutOff == (old(used) == |moves|)
      ensures if cutOff then used == old(used) && thread == old(thread)
              else used == old(used) + 1 && ok == (!job.persistent || moves[old(used)].reaches)
                   && thread == Advance(job, old(journal.View()), old(thread), moves[old(used)])
    {
      cutOff, ok := used == |moves|, false;
      if !cutOff {
        Extend();
        ghost var before := journal.View();
        var disk := if moves[used].reaches then Works else NotRenamed;
        if attempt.Some? {
          ok := journal.Started(job, attempt.value, disk);
        } else {
          ok := journal.Finished(job, moves[used].now, disk);
        }
        thread := Advance(job, before, thread, moves[used]);
        used := used + 1;
      }
    }

    /** The attempts of one cycle, from its first start record up to the end of the last run. */
    method Attempts() returns (finished: bool)
      requires ValidJob(job) && Following() && thread == Thread(Attempting(1), 0)
      modifies this`used, this`thread, journal
      ensures Following() && used >= old(used)
      ensures if finished then thread.phase == Finishing && used > old(used)
              else used == |moves| || Halted(thread)
      ensures thread.runs <= job.maximumAttempts
    {
      var attempt := 1;
      while attempt <= job.maximumAttempts
        invariant Following() && used >= old(used)
        invariant 1 <= attempt <= job.maximumAttempts + 1
        invariant attempt <= job.maximumAttempts ==> thread == Thread(Attempting(attempt), attempt - 1)
        invariant attempt > job.maximumAttempts ==>
                    thread == Thread(Finishing, job.maximumAttempts) && used > old(used)
        decreases job.maximumAttempts - attempt
      {
        var cutOff, ok := Record(Some(attempt));
        if cutOff || !ok {
          return false;
        }
        cutOff, ok := RunJob();
        if cutOff {
          return false;
        }
        if ok {
          break;
        }
        if attempt < job.maximumAttempts {
          var delay := SaturatingMultiply(job.retryBackoffMs, PowerOfTwo(attempt - 1));
          var stop;
          cutOff, stop := WaitOrStop(delay);
          if cutOff || stop {
            return false;
          }
        }
        attempt := attempt + 1;
      }
      return true;
    }

    /** The thread follows the model to its end, whatever the outside decides. */
    method Run()
      requires ValidJob(job) && Following() && thread == NEW_THREAD && used == 0
      modifies this`used, this`thread, journal
      ensures (journal.View(), thread) == Alone(job, start, NEW_THREAD, moves)
      ensures thread.runs <= job.maximumAttempts
    {
      var cutOff, delay := StartDelay();
      var stop := false;
      if !cutOff {
        cutOff, stop := WaitOrStop(delay);
      }
      while !cutOff && !stop
        invariant Following()
        invariant !cutOff && !stop ==> thread == Thread(Attempting(1), 0)
        invariant cutOff || stop ==> used == |moves| || Halted(thread)
        invariant thread.runs <= job.maximumAttempts
        decreases |moves| - used, !cutOff && !stop
      {
        var finished := Attempts();
        if !finished {
          stop := true;
          break;
        }
        var ok;
        cutOff, ok := Record(None);
        if !cutOff && !ok {
          stop := true;
        } else if !cutOff {
          cutOff, stop := WaitOrStop(job.intervalMs);
        }
      }
      assert moves == moves[..used] + moves[used..];
      if used < |moves| {
        AloneHalted(job, start, NEW_THREAD, moves[..used], moves[used..]);
      } else {
        assert moves[..used] == moves;
      }
    }
  }
}
