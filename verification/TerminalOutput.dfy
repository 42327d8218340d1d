/**
 Output of terminals and processes (process_runner.rs): the reader thread of a terminal, its
 bounded channel and `read_pty`; and the capped capture of a process's output.
 */
module TerminalOutput {
  import opened Outcomes
  import opened Sequences

  const READ_LIMIT: nat := 256 * 1024
  const CHUNK_LIMIT: nat := 16 * 1024
  const QUEUE_LIMIT: nat := 64
  const MAX_IO: nat := 1024 * 1024

  // ------------------------------------------------------------ reader thread

  /**
   A terminal: the bytes its reader thread has read, those the host has taken from the
   channel, the chunk in the thread's hands, the channel, and whether its sender is gone.
   */
  datatype Terminal = Terminal(sent: Bytes, delivered: Bytes, hand: Bytes, queue: seq<Bytes>, closed: bool)

  predicate IsChunk(chunk: Bytes) {
    1 <= |chunk| <= CHUNK_LIMIT
  }

  ghost predicate Valid(t: Terminal) {
    && t.sent == t.delivered + Concat(t.queue) + t.hand
    && (forall i | 0 <= i < |t.queue| :: IsChunk(t.queue[i]))
    && (t.hand == [] || IsChunk(t.hand))
    && |t.queue| <= QUEUE_LIMIT
    && (t.closed ==> t.hand == [])
  }

  const NEW_TERMINAL := Terminal([], [], [], [], false)

  /** What the reader thread does next: read a chunk, send the one it holds, or end. */
  datatype Step = Reads(chunk: Bytes) | Sends | Ends

  /** One step; a step that the thread cannot take now leaves everything as it is. */
  function Stepped(t: Terminal, step: Step): (r: Terminal)
    ensures Valid(t) ==> Valid(r)
    ensures r.delivered == t.delivered && t.sent <= r.sent && (t.closed ==> r == t)
  {
    if t.closed then t else
    match step
    case Reads(chunk) => if t.hand == [] && IsChunk(chunk) then t.(sent := t.sent + chunk, hand := chunk) else t
    case Sends =>
      ConcatAppend(t.queue, t.hand);
      if t.hand != [] && |t.queue| < QUEUE_LIMIT then t.(queue := t.queue + [t.hand], hand := []) else t
    case Ends => if t.hand == [] then t.(closed := true) else t
  }

  function AfterSteps(t: Terminal, steps: seq<Step>): (r: Terminal)
    ensures Valid(t) ==> Valid(r)
    ensures r.delivered == t.delivered && t.sent <= r.sent && (t.closed ==> r == t)
    decreases steps
  {
    if steps == [] then t else AfterSteps(Stepped(t, steps[0]), steps[1..])
  }

  /** The host takes the first chunk of the channel. */
  function Popped(t: Terminal): (r: Terminal)
    requires t.queue != []
    ensures Valid(t) ==> Valid(r)
  {
    t.(queue := t.queue[1..], delivered := t.delivered + t.queue[0])
  }

  /** What the reader thread does before each receive; after the last entry it does nothing. */
  type Schedule = seq<seq<Step>>

  function Head(schedule: Schedule): seq<Step> {
    if schedule == [] then [] else schedule[0]
  }

  function Tail(schedule: Schedule): Schedule {
    if schedule == [] then [] else schedule[1..]
  }

  // ------------------------------------------------------------------ read_pty

  datatype Taken = Taken(terminal: Terminal, schedule: Schedule, bytes: Bytes, closed: bool)

  /** Receiving without waiting until the limit is reached, nothing is there, or the sender is gone. */
  ghost function Take(t: Terminal, schedule: Schedule, bytes: Bytes): (r: Taken)
    requires Valid(t)
    decreases READ_LIMIT - |bytes|
  {
    if |bytes| >= READ_LIMIT then Taken(t, schedule, bytes, false)
    else
      var ready := AfterSteps(t, Head(schedule));
      if ready.queue == [] then Taken(ready, Tail(schedule), bytes, ready.closed)
      else Take(Popped(ready), Tail(schedule), bytes + ready.queue[0])
  }

  datatype Reply = Reply(data: Bytes, running: bool, exitCode: Option<int>)

  /** One call: a second try, which may wait, when the first one found nothing. */
  ghost function TakeOrWait(t: Terminal, schedule: Schedule): (r: Taken)
    requires Valid(t)
    ensures Valid(r.terminal)
  {
    var first := Take(t, schedule, []);
    TakeKeeps(t, schedule, []);
    if first.bytes == [] && !first.closed then
      TakeKeeps(first.terminal, first.schedule, []);
      Take(first.terminal, first.schedule, [])
    else first
  }

  ghost function AfterRead(t: Terminal, schedule: Schedule): (r: Terminal)
    requires Valid(t)
    ensures Valid(r)
  {
    TakeOrWait(t, schedule).terminal
  }

  ghost function ReadReply(t: Terminal, schedule: Schedule, exit: Option<int>): Reply
    requires Valid(t)
  {
    var taken := TakeOrWait(t, schedule);
    Reply(taken.bytes, exit.None? || !taken.closed, exit)
  }

  lemma DropTwice(all: Bytes, a: Bytes, b: Bytes)
    requires a + b <= all
    ensures a <= all && all[|a|..] == b + all[|a + b|..]
  {
    assert all[..|a + b|] == a + b;
  }

  lemma {:induction false} TakeKeeps(t: Terminal, schedule: Schedule, bytes: Bytes)
    requires Valid(t) && |bytes| < READ_LIMIT + CHUNK_LIMIT
    ensures var r := Take(t, schedule, bytes);
            && Valid(r.terminal) && t.sent <= r.terminal.sent && bytes <= r.bytes
            && r.terminal.delivered == t.delivered + r.bytes[|bytes|..]
            && |r.bytes| < READ_LIMIT + CHUNK_LIMIT
            && (|r.bytes| < READ_LIMIT ==> r.terminal.queue == [] && r.closed == r.terminal.closed)
            && (|r.bytes| >= READ_LIMIT ==> !r.closed)
    decreases READ_LIMIT - |bytes|
  {
    if |bytes| < READ_LIMIT {
      var ready := AfterSteps(t, Head(schedule));
      if ready.queue != [] {
        var chunk, r := ready.queue[0], Take(t, schedule, bytes);
        TakeKeeps(Popped(ready), Tail(schedule), bytes + chunk);
        DropTwice(r.bytes, bytes, chunk);
        Associates(t.delivered, chunk, r.bytes[|bytes + chunk|..]);
      }
    }
  }

  /** What receiving makes of a terminal, starting with nothing in hand. */
  ghost predicate TookNext(t: Terminal, r: Taken) {
    && Valid(r.terminal) && t.sent <= r.terminal.sent
    && r.terminal.delivered == t.delivered + r.bytes
    && |r.bytes| < READ_LIMIT + CHUNK_LIMIT
    && (|r.bytes| < READ_LIMIT ==> r.terminal.queue == [])
    && (r.closed <==> r.terminal.closed && |r.bytes| < READ_LIMIT)
  }

  lemma TakeTakesNext(t: Terminal, schedule: Schedule)
    requires Valid(t)
    ensures TookNext(t, Take(t, schedule, []))
  {
    TakeKeeps(t, schedule, []);
    var r := Take(t, schedule, []);
    assert r.bytes[0..] == r.bytes;
  }

  lemma TookNothingThenNext(t: Terminal, first: Taken, second: Taken)
    requires TookNext(t, first) && first.bytes == [] && TookNext(first.terminal, second)
    ensures TookNext(t, second)
  {
    assert t.delivered + [] == t.delivered;
  }

  lemma TakeOrWaitTakesNext(t: Terminal, schedule: Schedule)
    requires Valid(t)
    ensures TookNext(t, TakeOrWait(t, schedule))
  {
    TakeTakesNext(t, schedule);
    var first := Take(t, schedule, []);
    if first.bytes == [] && !first.closed {
      TakeTakesNext(first.terminal, first.schedule);
      TookNothingThenNext(t, first, Take(first.terminal, first.schedule, []));
    }
  }

  /**
   One call, whatever the reader thread does meanwhile: it returns the next bytes in order,
   fewer than 256 KiB + 16 KiB, leaves nothing in the channel unless it reached 256 KiB, and
   says "not running" exactly when the command has exited and the thread has ended below that limit.
   */
  lemma ReadReturnsNextBytes(t: Terminal, schedule: Schedule, exit: Option<int>)
    requires Valid(t)
    ensures var after, reply := AfterRead(t, schedule), ReadReply(t, schedule, exit);
            && Valid(after) && t.sent <= after.sent
            && after.delivered == t.delivered + reply.data
            && |reply.data| < READ_LIMIT + CHUNK_LIMIT
            && (|reply.data| < READ_LIMIT ==> after.queue == [])
            && (!reply.running <==> exit.Some? && after.closed && |reply.data| < READ_LIMIT)
            && reply.exitCode == exit
  {
    TakeOrWaitTakesNext(t, schedule);
  }

  /**
   What the terminal writes is read: a chunk goes through the thread's hands into the channel,
   and the next call returns it and, once the command has exited, says that this was all.
   */
  lemma ChunkArrives(chunk: Bytes, exit: Option<int>)
    requires IsChunk(chunk)
    ensures var t := AfterSteps(NEW_TERMINAL, [Reads(chunk), Sends, Ends]);
            && Valid(t) && t.closed
            && ReadReply(t, [], exit) == Reply(chunk, exit.None?, exit)
            && AfterRead(t, []).delivered == chunk
  {
    var steps := [Reads(chunk), Sends, Ends];
    assert steps[1..] == [Sends, Ends] && steps[1..][1..] == [Ends] && steps[1..][1..][1..] == [];
    var t := Terminal(chunk, [], [], [chunk], true);
    assert [] + chunk == chunk && [] + [chunk] == [chunk];
    assert Concat([chunk]) == chunk + Concat([]) == chunk;
    var held, sent := Terminal(chunk, [], chunk, [], false), t.(closed := false);
    assert Stepped(NEW_TERMINAL, Reads(chunk)) == held && Stepped(held, Sends) == sent && Stepped(sent, Ends) == t;
    assert AfterSteps(sent, [Ends]) == AfterSteps(t, []) == t;
    assert AfterSteps(NEW_TERMINAL, steps) == AfterSteps(held, [Sends, Ends]) == t;
    var done := Popped(t);
    assert done == Terminal(chunk, chunk, [], [], true);
    assert AfterSteps(t, []) == t && AfterSteps(done, []) == done;
    assert Take(done, [], chunk) == Taken(done, [], chunk, true);
    assert Take(t, [], []) == Taken(done, [], chunk, true);
  }

  /** A call: what the reader thread does during it, and whether the command has exited by its end. */
  datatype Call = Call(schedule: Schedule, exit: Option<int>)

  ghost function AfterCalls(t: Terminal, calls: seq<Call>): (r: Terminal)
    requires Valid(t)
    ensures Valid(r)
    decreases calls
  {
    if calls == [] then t else AfterCalls(AfterRead(t, calls[0].schedule), calls[1..])
  }

  ghost function Replies(t: Terminal, calls: seq<Call>): (r: seq<Reply>)
    requires Valid(t)
    ensures |r| == |calls|
    decreases calls
  {
    if calls == [] then []
    else [ReadReply(t, calls[0].schedule, calls[0].exit)] + Replies(AfterRead(t, calls[0].schedule), calls[1..])
  }

  ghost function Data(replies: seq<Reply>): Bytes {
    if replies == [] then [] else replies[0].data + Data(replies[1..])
  }

  lemma {:induction false} TakeFromClosed(t: Terminal, schedule: Schedule, bytes: Bytes)
    requires Valid(t) && t.closed
    ensures Take(t, schedule, bytes).terminal.closed && Take(t, schedule, bytes).terminal.sent == t.sent
    decreases READ_LIMIT - |bytes|
  {
    if |bytes| < READ_LIMIT && t.queue != [] {
      TakeFromClosed(Popped(t), Tail(schedule), bytes + t.queue[0]);
    }
  }

  lemma ClosedStays(t: Terminal, schedule: Schedule)
    requires Valid(t)
    ensures t.closed ==> AfterRead(t, schedule).closed && AfterRead(t, schedule).sent == t.sent
  {
    if t.closed {
      TakeKeeps(t, schedule, []);
      TakeFromClosed(t, schedule, []);
      var first := Take(t, schedule, []);
      if first.bytes == [] && !first.closed {
        TakeFromClosed(first.terminal, first.schedule, []);
      }
    }
  }

  /** Whatever happens in between, the replies hold what was delivered. */
  lemma {:induction false} CallsDeliver(t: Terminal, calls: seq<Call>)
    requires Valid(t)
    ensures AfterCalls(t, calls).delivered == t.delivered + Data(Replies(t, calls))
    decreases calls
  {
    if calls == [] {
      assert t.delivered + [] == t.delivered;
    } else {
      var after, rest := AfterRead(t, calls[0].schedule), calls[1..];
      var reply := ReadReply(t, calls[0].schedule, calls[0].exit);
      ReadReturnsNextBytes(t, calls[0].schedule, calls[0].exit);
      CallsDeliver(after, rest);
      assert Data(Replies(t, calls)) == reply.data + Data(Replies(after, rest)) by {
        assert Replies(t, calls)[0] == reply && Replies(t, calls)[1..] == Replies(after, rest);
      }
      Associates(t.delivered, reply.data, Data(Replies(after, rest)));
    }
  }

  lemma {:induction false} ClosedStaysOverCalls(t: Terminal, calls: seq<Call>)
    requires Valid(t) && t.closed
    ensures AfterCalls(t, calls).closed && AfterCalls(t, calls).sent == t.sent
    decreases calls
  {
    if calls != [] {
      ClosedStays(t, calls[0].schedule);
      ClosedStaysOverCalls(AfterRead(t, calls[0].schedule), calls[1..]);
    }
  }

  lemma DeliveredIsPrefix(t: Terminal)
    requires Valid(t)
    ensures t.delivered <= t.sent
    ensures t.queue == [] && t.closed ==> t.delivered == t.sent
  {
    Associates(t.delivered, Concat(t.queue), t.hand);
  }

  /** Over any run of calls the replies concatenate to a prefix of the bytes sent. */
  lemma RunReturnsPrefix(calls: seq<Call>)
    ensures Data(Replies(NEW_TERMINAL, calls)) <= AfterCalls(NEW_TERMINAL, calls).sent
  {
    CallsDeliver(NEW_TERMINAL, calls);
    DeliveredIsPrefix(AfterCalls(NEW_TERMINAL, calls));
    assert [] + Data(Replies(NEW_TERMINAL, calls)) == Data(Replies(NEW_TERMINAL, calls));
  }

  /** A reply of "not running" completes the output. */
  lemma NotRunningCompletes(t: Terminal, schedule: Schedule, exit: Option<int>)
    requires Valid(t) && !ReadReply(t, schedule, exit).running
    ensures AfterRead(t, schedule).closed
    ensures t.delivered + ReadReply(t, schedule, exit).data == AfterRead(t, schedule).sent
  {
    ReadReturnsNextBytes(t, schedule, exit);
    DeliveredIsPrefix(AfterRead(t, schedule));
  }

  lemma DataOfFirst(reply: Reply, rest: seq<Reply>, k: nat)
    requires k <= |rest|
    ensures Data(([reply] + rest)[..k + 1]) == reply.data + Data(rest[..k])
  {
    var some := ([reply] + rest)[..k + 1];
    assert some[0] == reply && some[1..] == rest[..k];
  }

  lemma FirstReplyCompletes(t: Terminal, calls: seq<Call>)
    requires Valid(t) && calls != [] && !ReadReply(t, calls[0].schedule, calls[0].exit).running
    ensures t.delivered + ReadReply(t, calls[0].schedule, calls[0].exit).data == AfterCalls(t, calls).sent
  {
    NotRunningCompletes(t, calls[0].schedule, calls[0].exit);
    ClosedStaysOverCalls(AfterRead(t, calls[0].schedule), calls[1..]);
  }

  /** "Not running" is said only when the replies hold everything the terminal ever sends. */
  lemma {:induction false} NotRunningMeansComplete(t: Terminal, calls: seq<Call>, k: nat)
    requires Valid(t) && k < |calls| && !Replies(t, calls)[k].running
    ensures t.delivered + Data(Replies(t, calls)[..k + 1]) == AfterCalls(t, calls).sent
    decreases calls
  {
    var schedule, exit, rest := calls[0].schedule, calls[0].exit, calls[1..];
    var after, reply := AfterRead(t, schedule), ReadReply(t, schedule, exit);
    DataOfFirst(reply, Replies(after, rest), k);
    if k == 0 {
      FirstReplyCompletes(t, calls);
      assert Replies(after, rest)[..0] == [] && reply.data + Data([]) == reply.data;
    } else {
      ReadReturnsNextBytes(t, schedule, exit);
      NotRunningMeansComplete(after, rest, k - 1);
      Associates(t.delivered, reply.data, Data(Replies(after, rest)[..k]));
    }
  }

  /** A call after the end that still says "running" took a full 256 KiB. */
  lemma RunningTookFull(t: Terminal, schedule: Schedule, exit: Option<int>)
    requires Valid(t) && t.closed && exit.Some? && ReadReply(t, schedule, exit).running
    ensures var after := AfterRead(t, schedule);
            && after.closed && |after.sent| == |t.sent| && |after.delivered| >= |t.delivered| + READ_LIMIT
  {
    ReadReturnsNextBytes(t, schedule, exit);
    ClosedStays(t, schedule);
  }

  /** All of these calls come after the command has exited and still say "running". */
  ghost predicate StillRunning(t: Terminal, calls: seq<Call>)
    requires Valid(t)
  {
    forall i | 0 <= i < |calls| :: calls[i].exit.Some? && Replies(t, calls)[i].running
  }

  lemma StillRunningLater(t: Terminal, calls: seq<Call>)
    requires Valid(t) && calls != [] && StillRunning(t, calls)
    ensures calls[0].exit.Some? && ReadReply(t, calls[0].schedule, calls[0].exit).running
    ensures StillRunning(AfterRead(t, calls[0].schedule), calls[1..])
  {
    var after, rest := AfterRead(t, calls[0].schedule), calls[1..];
    var replies := Replies(t, calls);
    assert replies[0] == ReadReply(t, calls[0].schedule, calls[0].exit) && replies[1..] == Replies(after, rest);
    forall i | 0 <= i < |rest|
      ensures rest[i].exit.Some? && Replies(after, rest)[i].running
    {
      assert rest[i] == calls[i + 1] && Replies(after, rest)[i] == replies[i + 1];
    }
  }

  /** And it is said in time: each call that still says "running" after the end took a full 256 KiB. */
  lemma {:induction false} EndIsReported(t: Terminal, calls: seq<Call>)
    requires Valid(t) && t.closed && StillRunning(t, calls)
    ensures |calls| * READ_LIMIT <= |t.sent| - |t.delivered|
    decreases calls
  {
    if calls == [] {
      DeliveredIsPrefix(t);
    } else {
      StillRunningLater(t, calls);
      RunningTookFull(t, calls[0].schedule, calls[0].exit);
      EndIsReported(AfterRead(t, calls[0].schedule), calls[1..]);
    }
  }

  datatype Received = Chunk(bytes: Bytes) | Empty | Disconnected

  class PtySession {
    var hand: Bytes
    var queue: seq<Bytes>
    var closed: bool
    ghost var sent: Bytes
    ghost var delivered: Bytes

    ghost function View(): Terminal
      reads this
    {
      Terminal(sent, delivered, hand, queue, closed)
    }

    constructor ()
      ensures View() == NEW_TERMINAL && Valid(View())
    {
      hand, queue, closed := [], [], false;
      sent, delivered := [], [];
    }

    /** The reader thread takes some steps. */
    method Reader(steps: seq<Step>)
      modifies this
      ensures View() == AfterSteps(old(View()), steps)
    {
      var i := 0;
      assert steps[..] == steps;
      while i < |steps|
        invariant 0 <= i <= |steps|
        invariant AfterSteps(View(), steps[i..]) == AfterSteps(old(View()), steps)
      {
        if !closed {
          match steps[i] {
            case Reads(chunk) =>
              if hand == [] && IsChunk(chunk) {
                hand, sent := chunk, sent + chunk;
              }
            case Sends =>
              if hand != [] && |queue| < QUEUE_LIMIT {
                queue, hand := queue + [hand], [];
              }
            case Ends =>
              closed := closed || hand == [];
          }
        }
        i := i + 1;
      }
    }

    /** A receive from the channel, the reader thread taking `steps` before it. */
    method Receive(steps: seq<Step>) returns (r: Received)
      modifies this
      ensures var ready := AfterSteps(old(View()), steps);
              if ready.queue != [] then r == Chunk(ready.queue[0]) && View() == Popped(ready)
              else r == (if ready.closed then Disconnected else Empty) && View() == ready
    {
      Reader(steps);
      if queue != [] {
        r := Chunk(queue[0]);
        delivered := delivered + queue[0];
        queue := queue[1..];
      } else {
        r := if closed then Disconnected else Empty;
      }
    }

    /** The receive loop of `read_pty`. */
    method TakeReady(schedule: Schedule, start: Bytes) returns (bytes: Bytes, outputClosed: bool, rest: Schedule)
      requires Valid(View())
      modifies this
      ensures Taken(View(), rest, bytes, outputClosed) == Take(old(View()), schedule, start)
      ensures Valid(View())
    {
      bytes, outputClosed, rest := start, false, schedule;
      while |bytes| < READ_LIMIT
        invariant Valid(View()) && !outputClosed
        invariant Take(View(), rest, bytes) == Take(old(View()), schedule, start)
        decreases READ_LIMIT - |bytes|
      {
        var received := Receive(Head(rest));
        rest := Tail(rest);
        match received {
          case Chunk(chunk) => bytes := bytes + chunk;
          case Empty => break;
          case Disconnected =>
            outputClosed := true;
            break;
        }
      }
    }

    /** `read_pty`; its second receive is the one that waits up to 20 milliseconds. */
    method ReadPty(schedule: Schedule, exit: Option<int>) returns (reply: Reply)
      requires Valid(View())
      modifies this
      ensures Valid(View())
      ensures View() == AfterRead(old(View()), schedule)
      ensures reply == ReadReply(old(View()), schedule, exit)
    {
      var bytes, outputClosed, rest := TakeReady(schedule, []);
      if bytes == [] && !outputClosed {
        var received := Receive(Head(rest));
        rest := Tail(rest);
        match received {
          case Chunk(chunk) =>
            assert [] + chunk == chunk;
            bytes, outputClosed, rest := TakeReady(rest, chunk);
          case Empty =>
          case Disconnected => outputClosed := true;
        }
      }
      reply := Reply(bytes, exit.None? || !outputClosed, exit);
      ReadReturnsNextBytes(old(View()), schedule, exit);
    }
  }

  // -------------------------------------------------------- captured processes

  /** One `read` of a process's output; a read of no bytes is the end. */
  datatype ReadResult = Read(bytes: Bytes) | Failed

  /** Everything written before the end, or nothing when a read failed. */
  function Output(results: seq<ReadResult>): Option<Bytes> {
    if results == [] then Some([])
    else if results[0].Failed? then None
    else if results[0].bytes == [] then Some([])
    else
      var rest := Output(results[1..]);
      if rest.None? then None else Some(results[0].bytes + rest.value)
  }

  /** Without an error, and with no empty read before the end, it is everything that was read. */
  lemma {:induction false} OutputIsAll(results: seq<ReadResult>)
    requires forall i | 0 <= i < |results| :: results[i].Read? && results[i].bytes != []
    ensures Output(results) == Some(Concat(seq(|results|, i requires 0 <= i < |results| => results[i].bytes)))
  {
    var chunks := seq(|results|, i requires 0 <= i < |results| => results[i].bytes);
    if results != [] {
      var rest := results[1..];
      OutputIsAll(rest);
      assert chunks[1..] == seq(|rest|, i requires 0 <= i < |rest| => rest[i].bytes);
    }
  }

  function Capped(all: Bytes): Bytes {
    if |all| <= MAX_IO then all else all[..MAX_IO]
  }

  /** What is kept is the beginning of the output, all of it or the first MiB. */
  lemma CappedIsBeginning(all: Bytes)
    ensures Capped(all) <= all
    ensures |Capped(all)| == if |all| < 1024 * 1024 then |all| else 1024 * 1024
  {
  }

  lemma CappedGrows(seen: Bytes, chunk: Bytes)
    ensures var remaining := MAX_IO - |Capped(seen)|;
            && Capped(seen + chunk) == Capped(seen) + chunk[..if |chunk| < remaining then |chunk| else remaining]
            && (|seen + chunk| > MAX_IO <==> |seen| > MAX_IO || |chunk| > remaining)
  {
  }

  /** What is known of the output after `seen`, `rest` still to be read. */
  ghost predicate Continues(whole: Option<Bytes>, seen: Bytes, rest: Option<Bytes>) {
    && (whole.None? <==> rest.None?)
    && (whole.Some? ==> whole.value == seen + rest.value)
  }

  lemma ContinuesWith(whole: Option<Bytes>, seen: Bytes, results: seq<ReadResult>)
    requires Continues(whole, seen, Output(results)) && results != [] && results[0].Read? && results[0].bytes != []
    ensures Continues(whole, seen + results[0].bytes, Output(results[1..]))
  {
    if whole.Some? {
      Associates(seen, results[0].bytes, Output(results[1..]).value);
    }
  }

  lemma ContinuesToEnd(whole: Option<Bytes>, seen: Bytes, rest: Option<Bytes>)
    requires Continues(whole, seen, rest) && rest == Some([])
    ensures whole == Some(seen)
  {
    assert seen + [] == seen;
  }

  /** `drain`: the first MiB is kept, and `overflow` says whether there was more. */
  method Drain(results: seq<ReadResult>) returns (r: Result<(Bytes, bool), ()>)
    ensures r.Err? <==> Output(results).None?
    ensures r.Ok? ==> r.value == (Capped(Output(results).value), |Output(results).value| > MAX_IO)
  {
    var kept, overflow, i := [], false, 0;
    ghost var seen: Bytes, whole := [], Output(results);
    assert results[0..] == results;
    while i < |results|
      invariant 0 <= i <= |results|
      invariant kept == Capped(seen) && overflow == (|seen| > MAX_IO)
      invariant Continues(whole, seen, Output(results[i..]))
    {
      ghost var rest := results[i..];
      assert rest[0] == results[i] && rest[1..] == results[i + 1..];
      if results[i].Failed? {
        return Err(());
      }
      var chunk := results[i].bytes;
      if chunk == [] {
        break;
      }
      ContinuesWith(whole, seen, rest);
      CappedGrows(seen, chunk);
      var remaining := MAX_IO - |kept|;
      kept := kept + chunk[..if |chunk| < remaining then |chunk| else remaining];
      overflow := overflow || |chunk| > remaining;
      seen := seen + chunk;
      i := i + 1;
    }
    ContinuesToEnd(whole, seen, Output(results[i..]));
    r := Ok((kept, overflow));
  }

  datatype CaptureError = CannotRead | TooLarge | NotUtf8

  /** `collect`: the whole output as text, or an error; a part of it is never passed off as the whole. */
  method Collect(results: seq<ReadResult>, decode: Bytes -> Option<string>) returns (r: Result<string, CaptureError>)
    ensures r.Ok? <==> Output(results).Some? && |Output(results).value| <= MAX_IO && decode(Output(results).value).Some?
    ensures r.Ok? ==> Some(r.value) == decode(Output(results).value)
    ensures r == Err(CannotRead) <==> Output(results).None?
    ensures r == Err(TooLarge) <==> Output(results).Some? && |Output(results).value| > MAX_IO
  {
    var drained := Drain(results);
    if drained.Err? {
      return Err(CannotRead);
    }
    var (bytes, overflow) := drained.value;
    if overflow {
      return Err(TooLarge);
    }
    match decode(bytes) {
      case Some(text) => r := Ok(text);
      case None => r := Err(NotUtf8);
    }
  }
}
