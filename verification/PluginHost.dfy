/**
 The host side of the plugin protocol (plugin.rs): one client per plugin process and the
 slot that starts, uses and replaces clients.

 Time, cancellation and the other side enter as parameters. A `Weather` says what
 happens to the process before the host writes and between its polls, so a statement
 about every weather is a statement about every interleaving of host, plugin and reader.
 */
module PluginHost {
  import opened Outcomes
  import opened Identifiers
  import opened PluginProtocol

  const MAX_REQUEST_ID: nat := 0xFFFF_FFFF_FFFF_FFFF

  datatype InvokeError =
    | Unavailable
    | NotExported
    | ResourceTooLarge
    | RequestCancelled
    | RequestTimedOut
    | IdOverflow
    | Mismatched
    | Unspecified
    | Reported(fault: Fault)

  /** One turn of the host's receive loop. */
  datatype Poll = Poll(turns: seq<Turn>, cancelled: bool, expired: bool)

  datatype Weather = Weather(before: seq<Turn>, writeFails: bool, polls: seq<Poll>)

  /** A start is refused by the integrity check or by the operating system, or runs a program. */
  datatype Launch = Refused | Started(meta: Metadata, boot: Weather)

  const BOOT_REQUEST: Request := NewRequest(1, PLUGIN_BOOT_COMMAND, Null)

  /** No plugin exports the handshake command: it is no identifier. */
  lemma ExportedIsNotBoot(meta: Metadata, command: string)
    requires ValidMetadata(meta) && command in meta.commands
    ensures command != PLUGIN_BOOT_COMMAND && ValidIdentifier(command)
  {
    var i :| 0 <= i < |meta.commands| && meta.commands[i] == command;
    assert ValidIdentifier(command);
    assert PLUGIN_BOOT_COMMAND[0] == '@';
  }

  // ------------------------------------------------- what the calls come to

  /** Waiting for the reply: the result and the process afterwards. */
  function Awaited(sizes: Sizes, p: Process, polls: seq<Poll>): (Result<Response, InvokeError>, Process)
    decreases |polls|
  {
    if polls == [] then (Err(RequestTimedOut), p)
    else
      var now := Happens(sizes, p, polls[0].turns);
      if polls[0].cancelled then (Err(RequestCancelled), now)
      else if polls[0].expired then (Err(RequestTimedOut), now)
      else if now.channel != [] then
        if now.channel[0].Broken? then (Err(Unavailable), now)
        else (Ok(now.channel[0].response), now.(channel := now.channel[1..]))
      else if !now.reading then (Err(Unavailable), now)
      else Awaited(sizes, now, polls[1..])
  }

  /** `request` on a process that owes nothing. */
  function Requested(sizes: Sizes, p: Process, id: nat, command: string, payload: Payload, w: Weather)
    : (Result<Response, InvokeError>, Process)
  {
    var now, request := Happens(sizes, p, w.before), NewRequest(id, command, payload);
    if id >= MAX_REQUEST_ID then (Err(IdOverflow), now)
    else if sizes.request(request) > MAX_MESSAGE_BYTES then (Err(ResourceTooLarge), now)
    else if w.writeFails then (Err(Unavailable), now)
    else Awaited(sizes, now.(inbox := now.inbox + [request]), w.polls)
  }

  /** What the caller of `invoke` is given for the result of the request. */
  function Outcome(r: Result<Response, InvokeError>): Result<Output, InvokeError> {
    if r.Err? then Err(r.error)
    else if r.value.status == Failure then
      Err(if r.value.error.Some? then Reported(r.value.error.value) else Unspecified)
    else Ok(Output(r.value.payload, r.value.events))
  }

  /** `invoke` with a client whose process is `p` and whose next id is `id`. */
  function Invoked(sizes: Sizes, p: Process, id: nat, command: string, payload: Payload, w: Weather)
    : Result<Output, InvokeError>
  {
    if command !in p.meta.commands then Err(NotExported) else Outcome(Requested(sizes, p, id, command, payload, w).0)
  }

  function Booted(sizes: Sizes, launch: Launch): (Result<Response, InvokeError>, Process)
    requires launch.Started?
  {
    Requested(sizes, Spawn(launch.meta), 1, PLUGIN_BOOT_COMMAND, Null, launch.boot)
  }

  /** A start gives the slot a client. */
  predicate StartsUp(sizes: Sizes, pluginId: string, pinned: Option<Metadata>, launch: Launch) {
    && launch.Started? && Booted(sizes, launch).0.Ok?
    && ValidMetadata(launch.meta) && launch.meta.identifier == pluginId
    && (pinned.Some? ==> pinned.value == launch.meta)
  }

  /** The process as it is when poll `i` looks at the channel, if no poll before took anything. */
  function ProcessAt(sizes: Sizes, p: Process, polls: seq<Poll>, i: nat): Process
    requires i < |polls|
    decreases i
  {
    var now := Happens(sizes, p, polls[0].turns);
    if i == 0 then now else ProcessAt(sizes, now, polls[1..], i - 1)
  }

  /** A poll that brings nothing, so that the loop goes on. */
  predicate Silent(poll: Poll, p: Process) {
    !poll.cancelled && !poll.expired && p.channel == [] && p.reading
  }

  /**
   The first poll that is not silent decides: a cancellation before the deadline, the
   deadline before the channel, and in the channel the very first message.
   */
  lemma {:induction false} FirstWordDecides(sizes: Sizes, p: Process, polls: seq<Poll>, i: nat)
    requires i < |polls| && forall k | 0 <= k < i :: Silent(polls[k], ProcessAt(sizes, p, polls, k))
    requires !Silent(polls[i], ProcessAt(sizes, p, polls, i))
    ensures var r, now := Awaited(sizes, p, polls).0, ProcessAt(sizes, p, polls, i);
            && (r == Err(RequestCancelled) <==> polls[i].cancelled)
            && (r == Err(RequestTimedOut) <==> !polls[i].cancelled && polls[i].expired)
            && (r.Ok? <==> !polls[i].cancelled && !polls[i].expired && now.channel != [] && now.channel[0].Message?)
            && (r.Ok? ==> r.value == now.channel[0].response)
            && (r.Err? ==> r.error in {RequestCancelled, RequestTimedOut, Unavailable})
    decreases i
  {
    if i > 0 {
      var now := Happens(sizes, p, polls[0].turns);
      assert Silent(polls[0], ProcessAt(sizes, p, polls, 0));
      forall k | 0 <= k < i - 1
        ensures Silent(polls[1..][k], ProcessAt(sizes, now, polls[1..], k))
      {
        assert Silent(polls[k + 1], ProcessAt(sizes, p, polls, k + 1));
      }
      FirstWordDecides(sizes, now, polls[1..], i - 1);
    }
  }

  /** When no poll brings anything the time runs out. */
  lemma {:induction false} SilenceTimesOut(sizes: Sizes, p: Process, polls: seq<Poll>)
    requires forall k | 0 <= k < |polls| :: Silent(polls[k], ProcessAt(sizes, p, polls, k))
    ensures Awaited(sizes, p, polls).0 == Err(RequestTimedOut)
    decreases |polls|
  {
    if polls != [] {
      var now := Happens(sizes, p, polls[0].turns);
      assert Silent(polls[0], ProcessAt(sizes, p, polls, 0));
      forall k | 0 <= k < |polls[1..]|
        ensures Silent(polls[1..][k], ProcessAt(sizes, now, polls[1..], k))
      {
        assert Silent(polls[k + 1], ProcessAt(sizes, p, polls, k + 1));
      }
      SilenceTimesOut(sizes, now, polls[1..]);
    }
  }

  // --------------------------------------------------------- in calm weather

  /** Nothing disturbs the exchange: the plugin answers and the answer is read before the first poll. */
  function Calm(outcome: Result<Output, Fault>): Weather {
    Weather([], false, [Poll(Undisturbed(outcome), false, false)])
  }

  /** A live process with empty pipes that owes nothing. */
  ghost predicate Ready(p: Process) {
    p.inbox == [] && p.outbox == [] && p.channel == [] && p.alive && p.reading
  }

  /** A request to a ready process that is served by `reply` and read again. */
  lemma CalmRequest(sizes: Sizes, p: Process, id: nat, command: string, payload: Payload,
                    outcome: Result<Output, Fault>, reply: Response)
    requires Ready(p) && 1 <= id < MAX_REQUEST_ID
    requires ValidRequest(NewRequest(id, command, payload))
    requires Respond(p.meta, NewRequest(id, command, payload), outcome) == Reply(reply)
    ensures var r := Requested(sizes, p, id, command, payload, Calm(outcome)).0;
            var size := sizes.request(NewRequest(id, command, payload));
            r == if size > MAX_MESSAGE_BYTES then Err(ResourceTooLarge)
                 else if size < MAX_MESSAGE_BYTES && sizes.response(reply) < MAX_MESSAGE_BYTES then Ok(reply)
                 else Err(Unavailable)
  {
    var request, turns := NewRequest(id, command, payload), Undisturbed(outcome);
    var given := p.(inbox := [request]);
    var handled := Happen(sizes, given, Handle(outcome));
    assert p.inbox + [request] == [request] && [request][1..] == [];
    assert turns[1..] == [Read] && turns[1..][1..] == [];
    assert Happens(sizes, given, turns) == Happens(sizes, handled, [Read]) == Happen(sizes, handled, Read);
    assert p.outbox + [Complete(reply)] == [Complete(reply)];
  }

  /**
   An exported command of a ready plugin, undisturbed: the caller gets the payload and the
   events, or the fault, that the plugin returned, if and only if both encodings are below
   the limit; otherwise the request is too large or the plugin is unavailable.
   */
  lemma CalmInvokeExactly(sizes: Sizes, p: Process, id: nat, command: string, payload: Payload,
                          outcome: Result<Output, Fault>)
    requires Ready(p) && 1 <= id < MAX_REQUEST_ID
    requires ValidMetadata(p.meta) && command in p.meta.commands
    requires outcome.Ok? ==> ValidEvents(outcome.value.events)
    ensures var r := Invoked(sizes, p, id, command, payload, Calm(outcome));
            var size := sizes.request(NewRequest(id, command, payload));
            var reply := if outcome.Ok? then Succeed(id, outcome.value.payload, outcome.value.events)
                         else Fail(id, outcome.error);
            r == if size > MAX_MESSAGE_BYTES then Err(ResourceTooLarge)
                 else if size == MAX_MESSAGE_BYTES || sizes.response(reply) >= MAX_MESSAGE_BYTES then Err(Unavailable)
                 else if outcome.Ok? then Ok(outcome.value)
                 else Err(Reported(outcome.error))
  {
    var reply := if outcome.Ok? then Succeed(id, outcome.value.payload, outcome.value.events)
                 else Fail(id, outcome.error);
    ExportedIsNotBoot(p.meta, command);
    CalmRequest(sizes, p, id, command, payload, outcome, reply);
  }

  /**
   An undisturbed start gives a client exactly when the plugin's metadata is valid, names the
   configured plugin and is the pinned one, and the handshake fits below the limit.
   */
  lemma CalmStartExactly(sizes: Sizes, pluginId: string, pinned: Option<Metadata>, meta: Metadata,
                         outcome: Result<Output, Fault>)
    ensures StartsUp(sizes, pluginId, pinned, Started(meta, Calm(outcome))) <==>
            && ValidMetadata(meta) && meta.identifier == pluginId
            && (pinned == None || pinned == Some(meta))
            && sizes.request(BOOT_REQUEST) < MAX_MESSAGE_BYTES
            && sizes.response(Succeed(1, MetadataValue(meta), [])) < MAX_MESSAGE_BYTES
  {
    if ValidMetadata(meta) {
      CalmRequest(sizes, Spawn(meta), 1, PLUGIN_BOOT_COMMAND, Null, outcome, Succeed(1, MetadataValue(meta), []));
    }
  }

  // ------------------------------------------------------------------ the client

  class PluginClient {
    const sizes: Sizes
    var process: Process
    var nextId: nat
    // Every request written to this process.
    ghost var written: seq<Request>

    /** Between requests: nothing is owed, and no id at or above `nextId` was used. */
    ghost predicate Settled()
      reads this
    {
      && Quiet(process)
      && 1 <= nextId <= MAX_REQUEST_ID
      && forall id | id in process.handled :: id < nextId
    }

    constructor (sizes: Sizes, meta: Metadata)
      ensures this.sizes == sizes && process == Spawn(meta)
      ensures Settled() && nextId == 1 && written == []
    {
      this.sizes, this.process, this.nextId, this.written := sizes, Spawn(meta), 1, [];
    }

    /** Write one request and poll the channel for its reply. */
    method Request(command: string, payload: Payload, w: Weather) returns (r: Result<Response, InvokeError>)
      requires Settled()
      modifies this
      ensures process.meta == old(process.meta)
      ensures (r, process) == Requested(sizes, old(process), old(nextId), command, payload, w)
      ensures r.Ok? ==>
                var request := NewRequest(old(nextId), command, payload);
                && Settled() && nextId == old(nextId) + 1
                && Answered(sizes, process, request)
                && process.handled[old(nextId)].response == r.value
                && ValidFor(r.value, old(nextId))
                && written == old(written) + [request]
      ensures old(nextId) !in old(process.handled)
      ensures forall id | id in old(process.handled) ::
                id in process.handled && process.handled[id] == old(process.handled)[id]
      ensures forall id | id in process.handled :: id in old(process.handled) || id == old(nextId)
      ensures written <= old(written) + [NewRequest(old(nextId), command, payload)]
      ensures r.Err? ==> !r.error.Mismatched? && !r.error.Reported? && !r.error.NotExported? && !r.error.Unspecified?
    {
      HappensQuiet(sizes, process, w.before);
      process := Happens(sizes, process, w.before);
      var id := nextId;
      if nextId == MAX_REQUEST_ID {
        return Err(IdOverflow);
      }
      nextId := nextId + 1;
      var request := NewRequest(id, command, payload);
      if sizes.request(request) > MAX_MESSAGE_BYTES {
        return Err(ResourceTooLarge);
      }
      if w.writeFails {
        return Err(Unavailable);
      }
      process := process.(inbox := process.inbox + [request]);
      written := written + [request];
      r := Await(request, w.polls);
    }

    /** The receive loop: cancellation, deadline and channel, again and again. */
    method Await(request: Request, polls: seq<Poll>) returns (r: Result<Response, InvokeError>)
      requires Owes(sizes, process, request)
      modifies this`process
      ensures (r, process) == Awaited(sizes, old(process), polls)
      ensures process.meta == old(process.meta)
      ensures r.Ok? ==>
                && Quiet(process) && Answered(sizes, process, request)
                && process.handled[request.id].response == r.value && ValidFor(r.value, request.id)
      ensures forall id | id in old(process.handled) && id != request.id ::
                id in process.handled && process.handled[id] == old(process.handled)[id]
      ensures forall id | id in process.handled :: id in old(process.handled) || id == request.id
      ensures r.Err? ==> r.error in {RequestCancelled, RequestTimedOut, Unavailable}
    {
      ghost var before := process.handled;
      assert polls[0..] == polls;
      for i := 0 to |polls|
        invariant Owes(sizes, process, request)
        invariant Awaited(sizes, process, polls[i..]) == Awaited(sizes, old(process), polls)
        invariant process.meta == old(process.meta)
        invariant forall k | k in before && k != request.id :: k in process.handled && process.handled[k] == before[k]
        invariant forall k | k in process.handled :: k in before || k == request.id
      {
        assert polls[i..][0] == polls[i] && polls[i..][1..] == polls[i + 1..];
        HappensOwes(sizes, process, request, polls[i].turns);
        process := Happens(sizes, process, polls[i].turns);
        if polls[i].cancelled {
          return Err(RequestCancelled);
        }
        if polls[i].expired {
          return Err(RequestTimedOut);
        }
        if |process.channel| > 0 {
          var item := process.channel[0];
          if item.Broken? {
            return Err(Unavailable);
          }
          FirstMessageAnswers(sizes, process, request);
          process := process.(channel := process.channel[1..]);
          if !ValidFor(item.response, request.id) {
            return Err(Mismatched);
          }
          return Ok(item.response);
        }
        if !process.reading {
          return Err(Unavailable);
        }
      }
      return Err(RequestTimedOut);
    }

    /** The handshake: an SDK plugin answers with the metadata it was built with. */
    method Boot(w: Weather) returns (r: Option<Metadata>)
      requires Settled()
      modifies this
      ensures process.meta == old(process.meta)
      ensures var (reply, p) := Requested(sizes, old(process), old(nextId), PLUGIN_BOOT_COMMAND, Null, w);
              process == p && r == if reply.Ok? then Some(old(process.meta)) else None
      ensures r.Some? ==>
                && r.value == process.meta && Settled() && nextId == old(nextId) + 1
                && written == old(written) + [NewRequest(old(nextId), PLUGIN_BOOT_COMMAND, Null)]
    {
      var response := Request(PLUGIN_BOOT_COMMAND, Null, w);
      if response.Err? || response.value.status == Failure || !response.value.payload.MetadataValue? {
        return None;
      }
      return Some(response.value.payload.metadata);
    }
  }

  class PluginSlot {
    const pluginId: string
    const sizes: Sizes
    var metadata: Option<Metadata>
    var client: PluginClient?

    /** A client kept by the slot owes nothing and runs the pinned plugin. */
    ghost predicate Valid()
      reads this, client
    {
      && (metadata.Some? ==> ValidMetadata(metadata.value) && metadata.value.identifier == pluginId)
      && (client != null ==>
            && client.Settled() && client.sizes == sizes
            && metadata == Some(client.process.meta))
    }

    constructor (pluginId: string, sizes: Sizes)
      ensures Valid() && metadata == None && client == null
    {
      this.pluginId, this.sizes, this.metadata, this.client := pluginId, sizes, None, null;
    }

    /** The client is as good as new: only the handshake was ever written to its process. */
    ghost predicate Unused()
      reads this, client
    {
      client != null ==> client.written == [BOOT_REQUEST] && client.nextId == 2
    }

    /** `restart`. */
    method Restart(launch: Launch) returns (ready: bool)
      requires Valid()
      modifies this
      ensures Valid() && Unused()
      ensures client == null || fresh(client)
      ensures ready <==> client != null
      ensures ready <==> StartsUp(sizes, pluginId, old(metadata), launch)
      ensures ready ==> metadata == Some(launch.meta) && client.process == Booted(sizes, launch).1
      ensures !ready ==> metadata == old(metadata)
      ensures old(metadata).Some? ==> metadata == old(metadata)
    {
      client := null;
      if launch.Refused? {
        return false;
      }
      var started := new PluginClient(sizes, launch.meta);
      var booted := started.Boot(launch.boot);
      if booted.None? || !ValidMetadata(booted.value) || booted.value.identifier != pluginId {
        return false;
      }
      if metadata.Some? && metadata.value != booted.value {
        return false;
      }
      metadata := booted;
      client := started;
      return true;
    }

    /** The exchange that ended last in the slot's present client. */
    ghost function LastExchange(): Option<Exchange>
      requires client != null
      reads this, client
    {
      var id := client.nextId - 1;
      if id in client.process.handled then Some(client.process.handled[id]) else None
    }

    /**
     The slot's present client answered this very invocation: the exchange was not there
     before the call, it carries the caller's command and payload, and `outcome` is what
     the plugin returned for it.
     */
    ghost predicate AnsweredNow(command: string, payload: Payload, outcome: Result<Output, Fault>)
      reads this, client
    {
      && client != null
      && LastExchange().Some?
      && var x := LastExchange().value;
         && x.request == NewRequest(client.nextId - 1, command, payload)
         && x.outcome == outcome
    }

    /** The rest of `invoke`, once the slot has a client. */
    method InvokeClient(command: string, payload: Payload, w: Weather, recovery: Launch)
      returns (r: Result<Output, InvokeError>)
      requires Valid() && client != null
      modifies this, client
      ensures Valid() && metadata == old(metadata)
      ensures r == Invoked(sizes, old(client.process), old(client.nextId), command, payload, w)
      ensures r.Ok? ==> AnsweredNow(command, payload, Ok(r.value))
      ensures r.Err? && r.error.Reported? ==> AnsweredNow(command, payload, Err(r.error.fault))
      ensures r.Ok? || r.error.Reported? ==>
                && client == old(client) && command in metadata.value.commands
                && client.nextId - 1 == old(client.nextId) && client.nextId - 1 !in old(client.process.handled)
                && client.written == old(client.written) + [NewRequest(client.nextId - 1, command, payload)]
      ensures r == Err(NotExported) ==>
                && command !in metadata.value.commands && client == old(client)
                && client.written == old(client.written) && client.nextId == old(client.nextId)
      ensures r.Err? && !r.error.Reported? && !r.error.NotExported? ==>
                && (client == null || fresh(client)) && Unused()
                && (client != null <==> StartsUp(sizes, pluginId, old(metadata), recovery))
      ensures r.Err? ==> !r.error.Mismatched? && !r.error.Unspecified?
    {
      if command !in metadata.value.commands {
        return Err(NotExported);
      }
      ExportedIsNotBoot(metadata.value, command);
      var response := client.Request(command, payload, w);
      if response.Err? {
        client := null;
        var _ := Restart(recovery);
        return Err(response.error);
      }
      if response.value.status == Failure {
        return Err(if response.value.error.Some? then Reported(response.value.error.value) else Unspecified);
      }
      return Ok(Output(response.value.payload, response.value.events));
    }

    /** `invoke`, under its lock; `first` and `recovery` are what the two possible restarts meet. */
    method Invoke(command: string, payload: Payload, first: Launch, w: Weather, recovery: Launch)
      returns (r: Result<Output, InvokeError>)
      requires Valid()
      modifies this, client
      ensures Valid()
      ensures old(metadata).Some? ==> metadata == old(metadata)
      ensures client == null || client == old(client) || fresh(client)
      // The exact result, on the client that is there or on one that is started first.
      ensures old(client) != null ==>
                r == Invoked(sizes, old(client.process), old(client.nextId), command, payload, w)
      ensures old(client) == null ==>
                r == if StartsUp(sizes, pluginId, old(metadata), first)
                     then Invoked(sizes, Booted(sizes, first).1, 2, command, payload, w)
                     else Err(Unavailable)
      // A payload is the one the plugin returned for this request, and so is a reported fault.
      ensures r.Ok? ==> AnsweredNow(command, payload, Ok(r.value))
      ensures r.Err? && r.error.Reported? ==> AnsweredNow(command, payload, Err(r.error.fault))
      ensures r.Ok? || r.error.Reported? ==>
                && command in metadata.value.commands
                && client.nextId - 1 == (if client == old(client) then old(client.nextId) else 2)
                && client.written == (if client == old(client) then old(client.written) else [BOOT_REQUEST])
                                     + [NewRequest(client.nextId - 1, command, payload)]
                && (client == old(client) ==> client.nextId - 1 !in old(client.process.handled))
      // A command the plugin does not export is never written.
      ensures r == Err(NotExported) ==>
                && metadata.Some? && command !in metadata.value.commands && client != null
                && (client == old(client) ==> client.written == old(client.written))
                && (client != old(client) ==> Unused())
      // Any other failure ends the process, and its successor is given nothing to redo.
      ensures r.Err? && !r.error.Reported? && !r.error.NotExported? ==>
                (client == null || fresh(client)) && Unused()
      // An SDK plugin's reply never fails validation.
      ensures r.Err? ==> !r.error.Mismatched? && !r.error.Unspecified?
    {
      if client == null {
        var ready := Restart(first);
        if !ready {
          return Err(Unavailable);
        }
      }
      r := InvokeClient(command, payload, w, recovery);
    }
  }
}
