/**
 The process side of the plugin protocol: the SDK loop of a Rust plugin
 (pam-desktop-plugin lib.rs), the pipes to and from it, and the host's reader thread
 with its FIFO channel (plugin.rs).

 JSON is taken to be faithful: a line is the envelope it encodes. Only the number of
 bytes of an encoded envelope is kept, as an arbitrary function of the envelope.
 */
module PluginProtocol {
  import opened Outcomes
  import opened Sequences
  import opened Identifiers

  const MAX_MESSAGE_BYTES: nat := 1024 * 1024
  const PLUGIN_PROTOCOL_VERSION: nat := 1
  const PLUGIN_BOOT_COMMAND: string := "@pam/plugin/boot"
  const UNKNOWN_COMMAND: nat := 3

  datatype MessageKind = RequestKind | ResponseKind

  datatype Status = Success | Failure

  datatype Metadata = Metadata(identifier: string, name: string, version: string, commands: seq<string>)

  datatype Payload = Null | Data(text: string) | MetadataValue(metadata: Metadata)

  datatype Event = Event(name: string, payload: string, windowId: Option<string>)

  datatype Fault = Fault(code: nat, message: string)

  datatype Request = Request(version: nat, id: nat, kind: MessageKind, command: string, payload: Payload)

  datatype Response = Response(
    version: nat,
    id: nat,
    kind: MessageKind,
    status: Status,
    payload: Payload,
    events: seq<Event>,
    error: Option<Fault>)

  /** Bytes of the JSON encoding of an envelope, without the newline. */
  datatype Sizes = Sizes(request: Request -> nat, response: Response -> nat)

  function NewRequest(id: nat, command: string, payload: Payload): Request {
    Request(PLUGIN_PROTOCOL_VERSION, id, RequestKind, command, payload)
  }

  function Succeed(id: nat, payload: Payload, events: seq<Event>): Response {
    Response(PLUGIN_PROTOCOL_VERSION, id, ResponseKind, Success, payload, events, None)
  }

  function Fail(id: nat, fault: Fault): Response {
    Response(PLUGIN_PROTOCOL_VERSION, id, ResponseKind, Failure, Null, [], Some(fault))
  }

  predicate ValidEvent(e: Event) {
    ValidIdentifier(e.name) && (e.windowId.Some? ==> ValidIdentifier(e.windowId.value))
  }

  predicate ValidEvents(events: seq<Event>) {
    forall i | 0 <= i < |events| :: ValidEvent(events[i])
  }

  predicate ValidRequest(r: Request) {
    && r.version == PLUGIN_PROTOCOL_VERSION
    && r.id != 0 && r.kind == RequestKind
    && (r.command != PLUGIN_BOOT_COMMAND ==> ValidIdentifier(r.command))
  }

  predicate ValidMetadata(m: Metadata) {
    && ValidIdentifier(m.identifier)
    && ValidText(m.name, 80, false)
    && ValidVersion(m.version)
    && m.commands != []
    && (forall i | 0 <= i < |m.commands| :: ValidIdentifier(m.commands[i]))
    && forall i, j | 0 <= i < j < |m.commands| :: m.commands[i] != m.commands[j]
  }

  /** `validate_for`: the host accepts the response as the reply to this request. */
  predicate ValidFor(r: Response, id: nat) {
    && r.version == PLUGIN_PROTOCOL_VERSION
    && r.kind == ResponseKind && r.id == id
    && (r.status == Failure ==> r.error.Some?)
    && ValidEvents(r.events)
  }

  // ------------------------------------------------------------ the SDK loop

  /** What the plugin's own `invoke` returned. */
  datatype Output = Output(payload: Payload, events: seq<Event>)

  datatype Served = Reply(response: Response) | Fatal

  /** The response the loop prepares; `Fatal` when the plugin emitted an invalid event. */
  function Respond(meta: Metadata, r: Request, outcome: Result<Output, Fault>): Served {
    if r.command == PLUGIN_BOOT_COMMAND then Reply(Succeed(r.id, MetadataValue(meta), []))
    else if r.command !in meta.commands then
      Reply(Fail(r.id, Fault(UNKNOWN_COMMAND, "Plugin command is not exported.")))
    else if outcome.Err? then Reply(Fail(r.id, outcome.error))
    else if ValidEvents(outcome.value.events) then
      Reply(Succeed(r.id, outcome.value.payload, outcome.value.events))
    else Fatal
  }

  /** One turn of the loop. Reading counts the newline against the limit, writing does not. */
  function Serve(sizes: Sizes, meta: Metadata, r: Request, outcome: Result<Output, Fault>): Served {
    if sizes.request(r) + 1 > MAX_MESSAGE_BYTES || !ValidRequest(r) then Fatal
    else
      var served := Respond(meta, r, outcome);
      if served.Reply? && sizes.response(served.response) > MAX_MESSAGE_BYTES then Fatal else served
  }

  /** What the host writes is a valid request exactly for the handshake and for identifiers. */
  lemma HostRequestsValidExactly(id: nat, command: string, payload: Payload)
    ensures ValidRequest(NewRequest(id, command, payload)) <==>
            id != 0 && (command == PLUGIN_BOOT_COMMAND || ValidIdentifier(command))
  {
  }

  /**
   The answer to each request: the metadata for the handshake, a failure for a command that is
   not exported, otherwise what the plugin returned; and none for a request that is too long or
   invalid, for an invalid event, and for a reply that is too long.
   */
  lemma ServedExactly(sizes: Sizes, meta: Metadata, r: Request, outcome: Result<Output, Fault>)
    ensures var boot, exported := r.command == PLUGIN_BOOT_COMMAND, r.command in meta.commands;
            var served := Serve(sizes, meta, r, outcome);
            var refused := sizes.request(r) >= MAX_MESSAGE_BYTES || !ValidRequest(r)
                           || (!boot && exported && outcome.Ok? && !ValidEvents(outcome.value.events));
            && (refused ==> served == Fatal)
            && (!refused && served == Fatal ==>
                  exists reply: Response :: reply.id == r.id && sizes.response(reply) > MAX_MESSAGE_BYTES)
            && (served.Reply? ==>
                  var reply := served.response;
                  && sizes.response(reply) <= MAX_MESSAGE_BYTES && reply.id == r.id
                  && (reply.status == Success <==> boot || (exported && outcome.Ok?))
                  && (boot ==> reply.payload == MetadataValue(meta) && reply.events == [])
                  && (!boot && !exported ==> reply.error.Some? && reply.error.value.code == UNKNOWN_COMMAND)
                  && (!boot && exported && outcome.Ok? ==>
                        reply.payload == outcome.value.payload && reply.events == outcome.value.events)
                  && (!boot && exported && outcome.Err? ==> reply.error == Some(outcome.error)))
  {
    var respond := Respond(meta, r, outcome);
    if respond.Reply? && Serve(sizes, meta, r, outcome) == Fatal {
      assert respond.response.id == r.id;
    }
  }

  /** The host accepts every line the SDK loop writes, as the reply to the line it read. */
  lemma ServedLinesAreAccepted(sizes: Sizes, meta: Metadata, r: Request, outcome: Result<Output, Fault>)
    ensures var served := Serve(sizes, meta, r, outcome);
            served.Reply? ==> ValidFor(served.response, r.id)
  {
  }

  /** A line on the plugin's standard input. */
  datatype InputLine = Line(request: Request) | Malformed

  datatype ServeResult = Finished | Rejected

  /**
   `serve_with_io`: one reply for each line, in order, until the input ends or a line
   cannot be served. `outcomes` are what the plugin's `invoke` would return, line by line.
   */
  method ServeWithIo(sizes: Sizes, meta: Metadata, input: seq<InputLine>, outcomes: seq<Result<Output, Fault>>)
    returns (output: seq<Response>, result: ServeResult)
    requires |outcomes| == |input|
    ensures |output| <= |input|
    ensures !ValidMetadata(meta) ==> output == [] && result == Rejected
    ensures forall i | 0 <= i < |output| ::
              input[i].Line? && Serve(sizes, meta, input[i].request, outcomes[i]) == Reply(output[i])
    ensures forall i | 0 <= i < |output| :: ValidFor(output[i], input[i].request.id)
    ensures result == Finished <==> ValidMetadata(meta) && |output| == |input|
    ensures ValidMetadata(meta) && |output| < |input| ==>
              var i := |output|;
              input[i].Malformed? || Serve(sizes, meta, input[i].request, outcomes[i]) == Fatal
  {
    output := [];
    if !ValidMetadata(meta) {
      return output, Rejected;
    }
    for i := 0 to |input|
      invariant |output| == i
      invariant forall k | 0 <= k < i ::
                  input[k].Line? && Serve(sizes, meta, input[k].request, outcomes[k]) == Reply(output[k])
      invariant forall k | 0 <= k < i :: ValidFor(output[k], input[k].request.id)
    {
      if input[i].Malformed? {
        return output, Rejected;
      }
      var served := Serve(sizes, meta, input[i].request, outcomes[i]);
      if served.Fatal? {
        return output, Rejected;
      }
      ServedLinesAreAccepted(sizes, meta, input[i].request, outcomes[i]);
      output := output + [served.response];
    }
    result := Finished;
  }

  // --------------------------------------------- the process and its reader

  /** A line on the plugin's standard output; a crash can leave the last one unfinished. */
  datatype OutputLine = Complete(response: Response) | Truncated

  /** What the reader thread sends to the host. */
  datatype Item = Message(response: Response) | Broken

  /** A request, what the plugin returned for it, and the response written. */
  datatype Exchange = Exchange(request: Request, outcome: Result<Output, Fault>, response: Response)

  /**
   One plugin process with everything between it and the host. `handled` records, by
   request id, every exchange of this process.
   */
  datatype Process = Process(
    meta: Metadata,
    inbox: seq<Request>,
    outbox: seq<OutputLine>,
    channel: seq<Item>,
    alive: bool,
    reading: bool,
    handled: map<nat, Exchange>)

  function Spawn(meta: Metadata): Process {
    Process(meta, [], [], [], ValidMetadata(meta), true, map[])
  }

  /** What can happen while the host is not looking. */
  datatype Turn =
    | Handle(outcome: Result<Output, Fault>)
    | Crash(partial: bool)
    | Read

  function Happen(sizes: Sizes, p: Process, t: Turn): Process {
    match t
    case Handle(outcome) =>
      if !p.alive || p.inbox == [] then p
      else
        var r := p.inbox[0];
        var rest := p.(inbox := p.inbox[1..]);
        var served := Serve(sizes, p.meta, r, outcome);
        if served.Fatal? then rest.(alive := false)
        else
          rest.(outbox := p.outbox + [Complete(served.response)],
                handled := p.handled[r.id := Exchange(r, outcome, served.response)])
    case Crash(partial) =>
      if !p.alive then p
      else p.(alive := false, outbox := if partial then p.outbox + [Truncated] else p.outbox)
    case Read =>
      if !p.reading then p
      else if p.outbox == [] then
        if p.alive then p else p.(channel := p.channel + [Broken], reading := false)
      else
        var line := p.outbox[0];
        var rest := p.(outbox := p.outbox[1..]);
        if line.Complete? && sizes.response(line.response) + 1 <= MAX_MESSAGE_BYTES then
          rest.(channel := p.channel + [Message(line.response)])
        else rest.(channel := p.channel + [Broken], reading := false)
  }

  function Happens(sizes: Sizes, p: Process, turns: seq<Turn>): Process
    decreases |turns|
  {
    if turns == [] then p else Happens(sizes, Happen(sizes, p, turns[0]), turns[1..])
  }

  /** Replies on their way to the host. */
  function Written(lines: seq<OutputLine>): seq<Response> {
    if lines == [] then []
    else (if lines[0].Complete? then [lines[0].response] else []) + Written(lines[1..])
  }

  function Delivered(items: seq<Item>): seq<Response> {
    if items == [] then []
    else (if items[0].Message? then [items[0].response] else []) + Delivered(items[1..])
  }

  function Underway(p: Process): seq<Response> {
    Delivered(p.channel) + Written(p.outbox)
  }

  /** Nothing is owed: no request waits and no reply is on its way. */
  ghost predicate Quiet(p: Process) {
    p.inbox == [] && Underway(p) == []
  }

  /** The process has answered `r` with what its plugin returned for `r`. */
  ghost predicate Answered(sizes: Sizes, p: Process, r: Request) {
    && r.id in p.handled
    && p.handled[r.id].request == r
    && Serve(sizes, p.meta, r, p.handled[r.id].outcome) == Reply(p.handled[r.id].response)
  }

  /** At most the one request `r` is owed, and a reply on its way is the answer to it. */
  ghost predicate Owes(sizes: Sizes, p: Process, r: Request) {
    || (p.inbox == [r] && Underway(p) == [] && r.id !in p.handled)
    || Quiet(p)
    || (&& p.inbox == []
        && Answered(sizes, p, r)
        && Underway(p) == [p.handled[r.id].response])
  }

  lemma {:induction false} WrittenConcat(a: seq<OutputLine>, b: seq<OutputLine>)
    ensures Written(a + b) == Written(a) + Written(b)
  {
    if a == [] {
      assert a + b == b;
    } else {
      assert (a + b)[1..] == a[1..] + b;
      WrittenConcat(a[1..], b);
      Associates(if a[0].Complete? then [a[0].response] else [], Written(a[1..]), Written(b));
    }
  }

  lemma {:induction false} DeliveredConcat(a: seq<Item>, b: seq<Item>)
    ensures Delivered(a + b) == Delivered(a) + Delivered(b)
  {
    if a == [] {
      assert a + b == b;
    } else {
      assert (a + b)[1..] == a[1..] + b;
      DeliveredConcat(a[1..], b);
      Associates(if a[0].Message? then [a[0].response] else [], Delivered(a[1..]), Delivered(b));
    }
  }

  lemma OneDelivered(items: seq<Item>, item: Item)
    ensures Delivered(items + [item]) == Delivered(items) + if item.Message? then [item.response] else []
  {
    DeliveredConcat(items, [item]);
    assert Delivered([item]) == (if item.Message? then [item.response] else []) + Delivered([]);
  }

  /** Reading creates no reply and reorders none; it can only lose the first. */
  lemma ReadingMovesReplies(sizes: Sizes, p: Process)
    ensures var p' := Happen(sizes, p, Read);
            || Underway(p') == Underway(p)
            || (Written(p.outbox) != [] && Underway(p') == Delivered(p.channel) + Written(p.outbox)[1..])
  {
    OneDelivered(p.channel, Broken);
    if p.reading && p.outbox != [] && p.outbox[0].Complete? {
      var response := p.outbox[0].response;
      OneDelivered(p.channel, Message(response));
      assert Written(p.outbox) == [response] + Written(p.outbox[1..]);
      Associates(Delivered(p.channel), [response], Written(p.outbox[1..]));
    }
  }

  /** Reading and crashing create no reply and reorder none; reading can only lose the first. */
  lemma OnlyHandlingReplies(sizes: Sizes, p: Process, t: Turn)
    requires !t.Handle?
    ensures var p' := Happen(sizes, p, t);
            && p'.inbox == p.inbox && p'.handled == p.handled && p'.meta == p.meta
            && (Underway(p') == Underway(p)
                || (Written(p.outbox) != []
                    && Underway(p') == Delivered(p.channel) + Written(p.outbox)[1..]))
  {
    match t
    case Handle(_) =>
    case Crash(partial) =>
      WrittenConcat(p.outbox, [Truncated]);
      assert Written([Truncated]) == [];
    case Read => ReadingMovesReplies(sizes, p);
  }

  lemma HandlingOwes(sizes: Sizes, p: Process, r: Request, outcome: Result<Output, Fault>)
    requires Owes(sizes, p, r)
    ensures Owes(sizes, Happen(sizes, p, Handle(outcome)), r)
  {
    var p' := Happen(sizes, p, Handle(outcome));
    if p.alive && p.inbox == [r] {
      var served := Serve(sizes, p.meta, r, outcome);
      if served.Reply? {
        WrittenConcat(p.outbox, [Complete(served.response)]);
        assert Written([Complete(served.response)]) == [served.response] + Written([]);
      }
    }
  }

  /** Whatever happens to the process, it owes nothing but the request it was given. */
  lemma HappenOwes(sizes: Sizes, p: Process, r: Request, t: Turn)
    requires Owes(sizes, p, r)
    ensures Owes(sizes, Happen(sizes, p, t), r)
    ensures Happen(sizes, p, t).meta == p.meta
    ensures forall id | id in Happen(sizes, p, t).handled && id !in p.handled :: id == r.id
    ensures forall id | id in p.handled && id != r.id ::
              id in Happen(sizes, p, t).handled && Happen(sizes, p, t).handled[id] == p.handled[id]
  {
    if t.Handle? {
      HandlingOwes(sizes, p, r, t.outcome);
    } else {
      OnlyHandlingReplies(sizes, p, t);
    }
  }

  lemma {:induction false} HappensOwes(sizes: Sizes, p: Process, r: Request, turns: seq<Turn>)
    requires Owes(sizes, p, r)
    ensures Owes(sizes, Happens(sizes, p, turns), r)
    ensures Happens(sizes, p, turns).meta == p.meta
    ensures forall id | id in Happens(sizes, p, turns).handled && id !in p.handled :: id == r.id
    ensures forall id | id in p.handled && id != r.id ::
              id in Happens(sizes, p, turns).handled && Happens(sizes, p, turns).handled[id] == p.handled[id]
    decreases |turns|
  {
    if turns != [] {
      HappenOwes(sizes, p, r, turns[0]);
      HappensOwes(sizes, Happen(sizes, p, turns[0]), r, turns[1..]);
    }
  }

  /** A process that owes nothing stays so, and handles nothing. */
  lemma {:induction false} HappensQuiet(sizes: Sizes, p: Process, turns: seq<Turn>)
    requires Quiet(p)
    ensures Quiet(Happens(sizes, p, turns))
    ensures Happens(sizes, p, turns).handled == p.handled && Happens(sizes, p, turns).meta == p.meta
    decreases |turns|
  {
    if turns != [] {
      if !turns[0].Handle? {
        OnlyHandlingReplies(sizes, p, turns[0]);
      }
      HappensQuiet(sizes, Happen(sizes, p, turns[0]), turns[1..]);
    }
  }

  /**
   The first message in the channel is the reply produced for the request that is owed;
   it is accepted by `validate_for`, and once it is taken nothing is owed.
   */
  lemma FirstMessageAnswers(sizes: Sizes, p: Process, r: Request)
    requires Owes(sizes, p, r) && p.channel != [] && p.channel[0].Message?
    ensures Answered(sizes, p, r) && p.handled[r.id].response == p.channel[0].response
    ensures ValidFor(p.channel[0].response, r.id)
    ensures Quiet(p.(channel := p.channel[1..]))
  {
    var first := p.channel[0].response;
    assert Delivered(p.channel) == [first] + Delivered(p.channel[1..]);
    assert Underway(p)[0] == first;
    assert |Underway(p)| == 1 + |Delivered(p.channel[1..])| + |Written(p.outbox)|;
    ServedLinesAreAccepted(sizes, p.meta, r, p.handled[r.id].outcome);
  }

  // ------------------------------------------------------- the message limit

  /** The turns of an undisturbed exchange. */
  function Undisturbed(outcome: Result<Output, Fault>): seq<Turn> {
    [Handle(outcome), Read]
  }

  /**
   The writers measure a message without its newline and the readers with it. So a
   request the host agrees to write gets its reply through an undisturbed, live process
   exactly when both encodings are strictly below the limit; at the limit itself a
   message is written and then refused by the other side.
   */
  lemma DeliveredExactlyBelowTheLimit(sizes: Sizes, p: Process, r: Request, outcome: Result<Output, Fault>)
    requires Quiet(p) && p.outbox == [] && p.channel == [] && p.alive && p.reading
    requires ValidRequest(r) && sizes.request(r) <= MAX_MESSAGE_BYTES
    requires outcome.Ok? ==> ValidEvents(outcome.value.events)
    ensures var given := p.(inbox := [r]);
            var reply := Respond(p.meta, r, outcome).response;
            Happens(sizes, given, Undisturbed(outcome)).channel == [Message(reply)] <==>
            sizes.request(r) < MAX_MESSAGE_BYTES && sizes.response(reply) < MAX_MESSAGE_BYTES
  {
    var given := p.(inbox := [r]);
    var handled := Happen(sizes, given, Handle(outcome));
    assert Undisturbed(outcome)[1..] == [Read] && [Read][1..] == [];
    assert Happens(sizes, given, Undisturbed(outcome)) == Happens(sizes, handled, [Read]);
    var read := Happen(sizes, handled, Read);
    assert Happens(sizes, handled, [Read]) == Happens(sizes, read, []) == read;
    var reply := Respond(p.meta, r, outcome).response;
    if sizes.request(r) < MAX_MESSAGE_BYTES && sizes.response(reply) <= MAX_MESSAGE_BYTES {
      assert Serve(sizes, p.meta, r, outcome) == Reply(reply);
      assert handled.outbox == [Complete(reply)];
      assert read.channel[0] == if sizes.response(reply) < MAX_MESSAGE_BYTES then Message(reply) else Broken;
    } else {
      assert Serve(sizes, p.meta, r, outcome) == Fatal;
      assert read.channel[0] == Broken;
    }
  }
}
