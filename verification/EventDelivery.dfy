/**
 Event delivery to the windows: the bounded history of the event hub (event_hub.rs), the
 polling endpoint (gateway.rs, `events`) and the poll loop of the bridge script that
 gateway.rs serves.

 `log` is every event published so far, which the hub itself does not keep.
 */
module EventDelivery {
  import opened Outcomes
  import opened Sequences

  const EVENT_HISTORY_LIMIT: nat := 256
  const MAX_EVENT_ID: nat := 0xFFFF_FFFF_FFFF_FFFF

  /** Up to here, 2 to the power 53, the bridge's JavaScript number holds every id exactly. */
  const MAX_EXACT_ID: nat := 0x20_0000_0000_0000

  datatype ClientEvent = ClientEvent(name: string, payload: string, windowId: Option<string>)

  datatype PublishedEvent = PublishedEvent(id: nat, name: string, payload: string, windowId: Option<string>)

  datatype HubState = HubState(nextId: nat, events: seq<PublishedEvent>)

  // ------------------------------------------------------------------ the hub

  function SaturatingNext(id: nat): nat {
    if id >= MAX_EVENT_ID then MAX_EVENT_ID else id + 1
  }

  function Stamp(id: nat, e: ClientEvent): PublishedEvent {
    PublishedEvent(id, e.name, e.payload, e.windowId)
  }

  /** The last `EVENT_HISTORY_LIMIT` events at most. */
  function Retain(events: seq<PublishedEvent>): seq<PublishedEvent> {
    if |events| > EVENT_HISTORY_LIMIT then events[|events| - EVENT_HISTORY_LIMIT..] else events
  }

  function PublishTo(h: HubState, e: ClientEvent): HubState {
    var id := SaturatingNext(h.nextId);
    HubState(id, Retain(h.events + [Stamp(id, e)]))
  }

  function HubAfter(log: seq<ClientEvent>): HubState {
    if log == [] then HubState(0, [])
    else PublishTo(HubAfter(log[..|log| - 1]), log[|log| - 1])
  }

  predicate Visible(e: PublishedEvent, window: string) {
    e.windowId.None? || e.windowId.value == window
  }

  /** `events_after`. */
  function EventsAfter(events: seq<PublishedEvent>, after: nat, window: string): seq<PublishedEvent> {
    if events == [] then []
    else
      (if events[0].id > after && Visible(events[0], window) then [events[0]] else [])
      + EventsAfter(events[1..], after, window)
  }

  // -------------------------------------------------- what should be delivered

  /** The events of `log` from index `lo` up to `hi` that the window may see, in order. */
  function VisibleBetween(log: seq<ClientEvent>, lo: nat, hi: nat, window: string): seq<PublishedEvent>
    requires hi <= |log|
    decreases hi - lo
  {
    if lo >= hi then [] else VisibleAt(log, lo, window) + VisibleBetween(log, lo + 1, hi, window)
  }

  /** The event at index `lo`, if the window may see it. */
  function VisibleAt(log: seq<ClientEvent>, lo: nat, window: string): seq<PublishedEvent>
    requires lo < |log|
  {
    if Visible(Stamp(lo + 1, log[lo]), window) then [Stamp(lo + 1, log[lo])] else []
  }

  /** The publication index before which the history has forgotten everything. */
  function Forgotten(log: seq<ClientEvent>): nat {
    if |log| > EVENT_HISTORY_LIMIT then |log| - EVENT_HISTORY_LIMIT else 0
  }

  function Max(a: nat, b: nat): nat {
    if a < b then b else a
  }

  /** While ids last, the hub holds the newest events under consecutive ids. */
  lemma {:induction false} HubHolds(log: seq<ClientEvent>)
    requires |log| <= MAX_EVENT_ID
    ensures var h := HubAfter(log);
            && h.nextId == |log|
            && |h.events| == |log| - Forgotten(log)
            && forall i | 0 <= i < |h.events| ::
                 h.events[i] == Stamp(Forgotten(log) + i + 1, log[Forgotten(log) + i])
  {
    if log != [] {
      HubHolds(log[..|log| - 1]);
    }
  }

  /** Consecutive events of the log, from index `lo` to its end. */
  ghost predicate Tail(log: seq<ClientEvent>, events: seq<PublishedEvent>, lo: nat) {
    && lo + |events| == |log|
    && forall i | 0 <= i < |events| :: events[i] == Stamp(lo + i + 1, log[lo + i])
  }

  lemma TailOfTail(log: seq<ClientEvent>, events: seq<PublishedEvent>, lo: nat)
    requires Tail(log, events, lo) && events != []
    ensures Tail(log, events[1..], lo + 1) && lo < |log| && events[0] == Stamp(lo + 1, log[lo])
  {
  }

  /** What the search makes of the first event. */
  lemma SearchFirst(log: seq<ClientEvent>, events: seq<PublishedEvent>, lo: nat, after: nat, window: string)
    requires Tail(log, events, lo) && events != []
    ensures EventsAfter(events, after, window)
         == (if lo + 1 > after then VisibleAt(log, lo, window) else []) + EventsAfter(events[1..], after, window)
  {
    TailOfTail(log, events, lo);
  }

  lemma {:induction false} AfterIsVisible(log: seq<ClientEvent>, events: seq<PublishedEvent>, lo: nat, after: nat, window: string)
    requires Tail(log, events, lo)
    ensures EventsAfter(events, after, window) == VisibleBetween(log, Max(lo, after), |log|, window)
    decreases |events|
  {
    if events != [] {
      var rest := EventsAfter(events[1..], after, window);
      TailOfTail(log, events, lo);
      AfterIsVisible(log, events[1..], lo + 1, after, window);
      SearchFirst(log, events, lo, after, window);
      assert lo + 1 <= after ==> [] + rest == rest;
    }
  }

  /** What a poll finds: the visible events after the cursor that are still remembered. */
  lemma PollFinds(log: seq<ClientEvent>, after: nat, window: string)
    requires |log| <= MAX_EVENT_ID
    ensures EventsAfter(HubAfter(log).events, after, window)
         == VisibleBetween(log, Max(Forgotten(log), after), |log|, window)
  {
    HubHolds(log);
    AfterIsVisible(log, HubAfter(log).events, Forgotten(log), after, window);
  }

  lemma {:induction false} VisibleSplit(log: seq<ClientEvent>, lo: nat, mid: nat, hi: nat, window: string)
    requires lo <= mid <= hi <= |log|
    ensures VisibleBetween(log, lo, hi, window)
         == VisibleBetween(log, lo, mid, window) + VisibleBetween(log, mid, hi, window)
    decreases mid - lo
  {
    if lo < mid {
      VisibleSplit(log, lo + 1, mid, hi, window);
      Associates(VisibleAt(log, lo, window), VisibleBetween(log, lo + 1, mid, window), VisibleBetween(log, mid, hi, window));
    }
  }

  lemma {:induction false} VisibleStable(log: seq<ClientEvent>, more: seq<ClientEvent>, lo: nat, hi: nat, window: string)
    requires hi <= |log|
    ensures VisibleBetween(log + more, lo, hi, window) == VisibleBetween(log, lo, hi, window)
    decreases hi - lo
  {
    if lo < hi {
      VisibleStable(log, more, lo + 1, hi, window);
    }
  }

  /** `d` lists visible events of the log with ids above `lo` and up to `hi`, in strict order. */
  ghost predicate Listed(d: seq<PublishedEvent>, log: seq<ClientEvent>, lo: nat, hi: nat, window: string) {
    && hi <= |log|
    && (forall i | 0 <= i < |d| ::
          lo < d[i].id <= hi && d[i] == Stamp(d[i].id, log[d[i].id - 1]) && Visible(d[i], window))
    && forall i, j | 0 <= i < j < |d| :: d[i].id < d[j].id
  }

  lemma OneListed(log: seq<ClientEvent>, lo: nat, window: string)
    requires lo < |log|
    ensures Listed(VisibleAt(log, lo, window), log, lo, lo + 1, window)
  {
  }

  lemma ListedFront(log: seq<ClientEvent>, lo: nat, hi: nat, window: string, rest: seq<PublishedEvent>)
    requires lo < hi <= |log| && Listed(rest, log, lo + 1, hi, window)
    ensures Listed(VisibleAt(log, lo, window) + rest, log, lo, hi, window)
  {
    OneListed(log, lo, window);
    ListedConcat(VisibleAt(log, lo, window), rest, log, lo, lo + 1, hi, window);
  }

  lemma {:induction false} VisibleIsListed(log: seq<ClientEvent>, lo: nat, hi: nat, window: string)
    requires hi <= |log|
    ensures Listed(VisibleBetween(log, lo, hi, window), log, lo, hi, window)
    decreases hi - lo
  {
    if lo < hi {
      VisibleIsListed(log, lo + 1, hi, window);
      ListedFront(log, lo, hi, window, VisibleBetween(log, lo + 1, hi, window));
    }
  }

  lemma ListedConcat(a: seq<PublishedEvent>, b: seq<PublishedEvent>, log: seq<ClientEvent>,
                     lo: nat, mid: nat, hi: nat, window: string)
    requires lo <= mid <= hi
    requires Listed(a, log, lo, mid, window) && Listed(b, log, mid, hi, window)
    ensures Listed(a + b, log, lo, hi, window)
  {
  }

  lemma ListedStable(d: seq<PublishedEvent>, log: seq<ClientEvent>, more: seq<ClientEvent>,
                     lo: nat, hi: nat, window: string)
    requires Listed(d, log, lo, hi, window)
    ensures Listed(d, log + more, lo, hi, window)
  {
  }

  /** The last event found closes the range: nothing visible lies behind it. */
  ghost predicate Closes(found: seq<PublishedEvent>, log: seq<ClientEvent>, lo: nat, hi: nat, window: string)
    requires hi <= |log|
  {
    found != [] ==>
      && lo < found[|found| - 1].id <= hi
      && VisibleBetween(log, found[|found| - 1].id, hi, window) == []
  }

  lemma ClosesFront(log: seq<ClientEvent>, lo: nat, hi: nat, window: string, rest: seq<PublishedEvent>)
    requires lo < hi <= |log| && rest == VisibleBetween(log, lo + 1, hi, window)
    requires Closes(rest, log, lo + 1, hi, window)
    ensures Closes(VisibleAt(log, lo, window) + rest, log, lo, hi, window)
  {
    var found := VisibleAt(log, lo, window) + rest;
    if rest != [] {
      assert found[|found| - 1] == rest[|rest| - 1];
    }
  }

  lemma {:induction false} LastFound(log: seq<ClientEvent>, lo: nat, hi: nat, window: string)
    requires hi <= |log|
    ensures Closes(VisibleBetween(log, lo, hi, window), log, lo, hi, window)
    decreases hi - lo
  {
    if lo < hi {
      LastFound(log, lo + 1, hi, window);
      ClosesFront(log, lo, hi, window, VisibleBetween(log, lo + 1, hi, window));
    }
  }

  // --------------------------------------------------------------- the system

  /** One window: the cursor it will send next and what it has dispatched. */
  datatype WindowState = WindowState(cursor: nat, dispatched: seq<PublishedEvent>)

  datatype System = System(log: seq<ClientEvent>, window: WindowState)

  /**
   `Poll` is one round trip. `gap` is what is published after the history was searched
   and before the endpoint reads the latest id; `lost` says the response never arrives.
   */
  datatype Step =
    | Publish(event: ClientEvent)
    | Poll(gap: seq<ClientEvent>, lost: bool)

  function Found(s: System, window: string): seq<PublishedEvent> {
    EventsAfter(HubAfter(s.log).events, s.window.cursor, window)
  }

  /** The endpoint's answer to a poll: the last id found, or the latest id if nothing was found. */
  function ReplyCursor(found: seq<PublishedEvent>, latest: nat): nat {
    if found == [] then latest else found[|found| - 1].id
  }

  /** The distance of neighbouring JavaScript numbers at `id`. */
  function Spacing(id: nat, unit: nat): (r: nat)
    requires unit >= 2
    ensures r >= 2
    decreases if id > unit then id - unit else 0
  {
    if id <= MAX_EXACT_ID * unit then unit else Spacing(id, 2 * unit)
  }

  /** The nearest multiple, and of two nearest ones the even one. */
  function RoundTo(id: nat, unit: nat): nat
    requires unit > 0
  {
    var low := id / unit * unit;
    if 2 * (id - low) < unit || (2 * (id - low) == unit && id / unit % 2 == 0) then low else low + unit
  }

  /** The cursor as the bridge keeps it. */
  function AsNumber(id: nat): nat {
    if id <= MAX_EXACT_ID then id else RoundTo(id, Spacing(id, 2))
  }

  function Next(s: System, window: string, step: Step): System {
    match step
    case Publish(e) => s.(log := s.log + [e])
    case Poll(gap, lost) =>
      var found := Found(s, window);
      var log := s.log + gap;
      System(log,
             if lost then s.window
             else WindowState(AsNumber(ReplyCursor(found, HubAfter(log).nextId)), s.window.dispatched + found))
  }

  function RunSteps(s: System, window: string, steps: seq<Step>): System
    decreases |steps|
  {
    if steps == [] then s else RunSteps(Next(s, window, steps[0]), window, steps[1..])
  }

  /** Everything up to the cursor that the window may see was dispatched, once and in order. */
  ghost predicate CaughtUp(s: System, window: string) {
    s.window.cursor <= |s.log| &&
    s.window.dispatched == VisibleBetween(s.log, 0, s.window.cursor, window)
  }

  /** No visible event is beyond the reach of this poll or hides in its gap. */
  ghost predicate Reachable(s: System, window: string, step: Step) {
    step.Poll? && !step.lost ==>
      && s.window.cursor <= |s.log|
      && VisibleBetween(s.log, s.window.cursor, Max(Forgotten(s.log), s.window.cursor), window) == []
      && (Found(s, window) == [] ==>
            VisibleBetween(s.log + step.gap, |s.log|, |s.log + step.gap|, window) == [])
  }

  /** A poll that found nothing: what it missed and what its gap hides is passed over. */
  lemma EmptyPollCatchesUp(s: System, window: string, gap: seq<ClientEvent>)
    requires CaughtUp(s, window) && |s.log + gap| <= MAX_EXACT_ID && Found(s, window) == []
    ensures CaughtUp(Next(s, window, Poll(gap, false)), window) <==>
            Missed(s, window) == [] && VisibleBetween(s.log + gap, |s.log|, |s.log + gap|, window) == []
  {
    var log, had, missed := s.log + gap, s.window.dispatched, Missed(s, window);
    var hidden := VisibleBetween(log, |s.log|, |log|, window);
    PollFinds(s.log, s.window.cursor, window);
    Account(s.log, s.window.cursor, Max(Forgotten(s.log), s.window.cursor), window);
    HubHolds(log);
    VisibleStable(s.log, gap, 0, |s.log|, window);
    VisibleSplit(log, 0, |s.log|, |log|, window);
    assert had + missed + [] == had + missed && had + [] == had;
    InsertedTwice(had, missed, hidden);
  }

  /** A poll that found something: what it missed is passed over. */
  lemma FullPollCatchesUp(s: System, window: string, gap: seq<ClientEvent>)
    requires CaughtUp(s, window) && |s.log + gap| <= MAX_EXACT_ID && Found(s, window) != []
    ensures CaughtUp(Next(s, window, Poll(gap, false)), window) <==> Missed(s, window) == []
  {
    var found := Found(s, window);
    PollFinds(s.log, s.window.cursor, window);
    Account(s.log, s.window.cursor, Max(Forgotten(s.log), s.window.cursor), window);
    VisibleStable(s.log, gap, 0, found[|found| - 1].id, window);
    InsertedNothing(s.window.dispatched, Missed(s, window), found);
  }

  /**
   One round trip keeps the window caught up exactly when no visible event has been
   forgotten before the window saw it and, on an empty result, none was published between
   the two reads of the endpoint.
   */
  lemma PollKeepsCaughtUpExactly(s: System, window: string, gap: seq<ClientEvent>)
    requires CaughtUp(s, window) && |s.log + gap| <= MAX_EXACT_ID
    ensures CaughtUp(Next(s, window, Poll(gap, false)), window) <==> Reachable(s, window, Poll(gap, false))
  {
    if Found(s, window) == [] {
      EmptyPollCatchesUp(s, window, gap);
    } else {
      FullPollCatchesUp(s, window, gap);
    }
  }

  lemma InsertedTwice<T>(a: seq<T>, b: seq<T>, c: seq<T>)
    ensures a == a + b + c <==> b == [] && c == []
  {
    assert |a + b + c| == |a| + |b| + |c|;
  }

  lemma InsertedNothing<T>(a: seq<T>, middle: seq<T>, b: seq<T>)
    ensures a + b == a + middle + b <==> middle == []
  {
    assert |a + middle + b| == |a| + |middle| + |b|;
  }

  /** Visible events the history forgot before the window saw them. */
  function Missed(s: System, window: string): seq<PublishedEvent>
    requires s.window.cursor <= |s.log|
  {
    VisibleBetween(s.log, s.window.cursor, Max(Forgotten(s.log), s.window.cursor), window)
  }

  /** What the window may see is what it has, what it missed and what the poll finds. */
  lemma Account(log: seq<ClientEvent>, cursor: nat, reach: nat, window: string)
    requires cursor <= reach <= |log|
    ensures var found := VisibleBetween(log, reach, |log|, window);
            var all := VisibleBetween(log, 0, cursor, window) + VisibleBetween(log, cursor, reach, window) + found;
            && VisibleBetween(log, 0, |log|, window) == all
            && (found != [] ==>
                  && found[|found| - 1].id <= |log|
                  && VisibleBetween(log, 0, found[|found| - 1].id, window) == all)
  {
    var found := VisibleBetween(log, reach, |log|, window);
    LastFound(log, reach, |log|, window);
    VisibleSplit(log, 0, cursor, reach, window);
    VisibleSplit(log, 0, reach, |log|, window);
    if found != [] {
      var last := found[|found| - 1].id;
      VisibleSplit(log, 0, last, |log|, window);
      assert VisibleBetween(log, 0, last, window) + [] == VisibleBetween(log, 0, last, window);
    }
  }

  /** At every poll at most 256 events lie beyond the cursor, and empty results have quiet gaps. */
  ghost predicate Attentive(s: System, window: string, steps: seq<Step>)
    decreases |steps|
  {
    steps == [] ||
    (&& (steps[0].Poll? ==>
           && |s.log| <= s.window.cursor + EVENT_HISTORY_LIMIT
           && (!steps[0].lost && Found(s, window) == [] ==>
                 VisibleBetween(s.log + steps[0].gap, |s.log|, |s.log + steps[0].gap|, window) == []))
     && Attentive(Next(s, window, steps[0]), window, steps[1..]))
  }

  /** Every run of an attentive window dispatches every visible event exactly once, in order. */
  lemma {:induction false} RunKeepsCaughtUp(s: System, window: string, steps: seq<Step>)
    requires CaughtUp(s, window) && Attentive(s, window, steps)
    requires |RunSteps(s, window, steps).log| <= MAX_EXACT_ID
    ensures CaughtUp(RunSteps(s, window, steps), window)
    decreases |steps|
  {
    if steps != [] {
      var s' := Next(s, window, steps[0]);
      LogGrows(s', window, steps[1..]);
      match steps[0] {
        case Publish(e) => VisibleStable(s.log, [e], 0, s.window.cursor, window);
        case Poll(gap, lost) =>
          VisibleStable(s.log, gap, 0, s.window.cursor, window);
          if !lost {
            assert VisibleBetween(s.log, s.window.cursor, s.window.cursor, window) == [];
            PollKeepsCaughtUpExactly(s, window, gap);
          }
      }
      RunKeepsCaughtUp(s', window, steps[1..]);
    }
  }

  lemma {:induction false} LogGrows(s: System, window: string, steps: seq<Step>)
    ensures s.log <= RunSteps(s, window, steps).log
    decreases |steps|
  {
    if steps != [] {
      LogGrows(Next(s, window, steps[0]), window, steps[1..]);
    }
  }

  /** After a poll that arrives, a caught-up window has everything published before the poll. */
  lemma PollDeliversAll(s: System, window: string, gap: seq<ClientEvent>)
    requires CaughtUp(s, window) && |s.log + gap| <= MAX_EXACT_ID
    requires |s.log| <= s.window.cursor + EVENT_HISTORY_LIMIT
    ensures Next(s, window, Poll(gap, false)).window.dispatched == VisibleBetween(s.log, 0, |s.log|, window)
  {
    PollFinds(s.log, s.window.cursor, window);
    VisibleSplit(s.log, 0, s.window.cursor, |s.log|, window);
  }

  // -------------------------------------------------- what holds without care

  /** Dispatched events are visible events of the log, up to the cursor, in strict order of publication. */
  ghost predicate Orderly(s: System, window: string) {
    Listed(s.window.dispatched, s.log, 0, s.window.cursor, window)
  }

  /** The later state keeps what was dispatched and adds only events beyond the earlier cursor. */
  ghost predicate Extends(s: System, s': System, window: string) {
    && s.window.cursor <= s'.window.cursor
    && s.window.dispatched <= s'.window.dispatched
    && Listed(s'.window.dispatched[|s.window.dispatched|..], s'.log, s.window.cursor, s'.window.cursor, window)
  }

  lemma StepKeepsOrder(s: System, window: string, step: Step)
    requires Orderly(s, window) && |Next(s, window, step).log| <= MAX_EXACT_ID
    ensures Orderly(Next(s, window, step), window)
    ensures Extends(s, Next(s, window, step), window)
  {
    var s' := Next(s, window, step);
    var more := if step.Publish? then [step.event] else step.gap;
    ListedStable(s.window.dispatched, s.log, more, 0, s.window.cursor, window);
    if step.Poll? && !step.lost {
      PollListed(s, window, step.gap);
      ListedConcat(s.window.dispatched, Found(s, window), s'.log, 0, s.window.cursor, s'.window.cursor, window);
      assert s'.window.dispatched[|s.window.dispatched|..] == Found(s, window);
    }
  }

  /** What a poll finds lies between the old cursor and the new one. */
  lemma PollListed(s: System, window: string, gap: seq<ClientEvent>)
    requires s.window.cursor <= |s.log| && |s.log + gap| <= MAX_EXACT_ID
    ensures var s' := Next(s, window, Poll(gap, false));
            s.window.cursor <= s'.window.cursor &&
            Listed(Found(s, window), s'.log, s.window.cursor, s'.window.cursor, window)
  {
    var reach := Max(Forgotten(s.log), s.window.cursor);
    PollFinds(s.log, s.window.cursor, window);
    VisibleIsListed(s.log, reach, |s.log|, window);
    HubHolds(s.log + gap);
    ListedStable(Found(s, window), s.log, gap, reach, |s.log|, window);
  }

  lemma ExtendsFurther(s: System, s1: System, s2: System, window: string)
    requires s1.log <= s2.log && |s2.log| <= MAX_EXACT_ID
    requires Extends(s, s1, window) && Extends(s1, s2, window)
    ensures Extends(s, s2, window)
  {
    var first := s1.window.dispatched[|s.window.dispatched|..];
    var second := s2.window.dispatched[|s1.window.dispatched|..];
    var more := s2.log[|s1.log|..];
    assert s1.log + more == s2.log;
    ListedStable(first, s1.log, more, s.window.cursor, s1.window.cursor, window);
    ListedConcat(first, second, s2.log, s.window.cursor, s1.window.cursor, s2.window.cursor, window);
    assert s2.window.dispatched[|s.window.dispatched|..] == first + second;
  }

  /** However many responses are lost and events forgotten, nothing is dispatched twice or out of order. */
  lemma {:induction false} RunKeepsOrder(s: System, window: string, steps: seq<Step>)
    requires Orderly(s, window)
    requires |RunSteps(s, window, steps).log| <= MAX_EXACT_ID
    ensures Orderly(RunSteps(s, window, steps), window)
    ensures Extends(s, RunSteps(s, window, steps), window)
    decreases |steps|
  {
    if steps != [] {
      var s1 := Next(s, window, steps[0]);
      var s2 := RunSteps(s1, window, steps[1..]);
      LogGrows(s1, window, steps[1..]);
      StepKeepsOrder(s, window, steps[0]);
      RunKeepsOrder(s1, window, steps[1..]);
      ExtendsFurther(s, s1, s2, window);
    }
  }

  // ------------------------------------------------ in terms of what was published

  /** The event is for this window or for all windows. */
  ghost predicate MeantFor(e: ClientEvent, window: string) {
    e.windowId == None || e.windowId == Some(window)
  }

  /** The list has event `k` of the log, with its place, name, payload and target. */
  ghost predicate Has(d: seq<PublishedEvent>, log: seq<ClientEvent>, k: nat)
    requires k < |log|
  {
    PublishedEvent(k + 1, log[k].name, log[k].payload, log[k].windowId) in d
  }

  lemma InEither<T>(x: T, a: seq<T>, b: seq<T>)
    ensures x in a + b <==> x in a || x in b
  {
  }

  lemma ListedAbove(d: seq<PublishedEvent>, log: seq<ClientEvent>, lo: nat, hi: nat, window: string, e: PublishedEvent)
    requires Listed(d, log, lo, hi, window) && e.id <= lo
    ensures e !in d
  {
  }

  lemma HasFirst(log: seq<ClientEvent>, lo: nat, hi: nat, window: string, rest: seq<PublishedEvent>)
    requires lo < hi <= |log| && Listed(rest, log, lo + 1, hi, window)
    ensures Has(VisibleAt(log, lo, window) + rest, log, lo) <==> MeantFor(log[lo], window)
  {
    var e := PublishedEvent(lo + 1, log[lo].name, log[lo].payload, log[lo].windowId);
    InEither(e, VisibleAt(log, lo, window), rest);
    ListedAbove(rest, log, lo + 1, hi, window, e);
  }

  lemma HasLater(log: seq<ClientEvent>, lo: nat, window: string, rest: seq<PublishedEvent>, k: nat)
    requires lo < k < |log|
    ensures Has(VisibleAt(log, lo, window) + rest, log, k) <==> Has(rest, log, k)
  {
    var e := PublishedEvent(k + 1, log[k].name, log[k].payload, log[k].windowId);
    InEither(e, VisibleAt(log, lo, window), rest);
  }

  lemma {:induction false} VisibleHas(log: seq<ClientEvent>, lo: nat, hi: nat, window: string, k: nat)
    requires lo <= k < hi <= |log|
    ensures Has(VisibleBetween(log, lo, hi, window), log, k) <==> MeantFor(log[k], window)
    decreases hi - lo
  {
    var rest := VisibleBetween(log, lo + 1, hi, window);
    if lo < k {
      VisibleHas(log, lo + 1, hi, window, k);
      HasLater(log, lo, window, rest, k);
    } else {
      VisibleIsListed(log, lo + 1, hi, window);
      HasFirst(log, lo, hi, window, rest);
    }
  }

  /** A window dispatches only events that were published, as they were published, and meant for it. */
  lemma OnlyOwnEvents(window: string, steps: seq<Step>)
    requires |RunSteps(System([], WindowState(0, [])), window, steps).log| <= MAX_EXACT_ID
    ensures var s := RunSteps(System([], WindowState(0, [])), window, steps);
            forall i | 0 <= i < |s.window.dispatched| ::
              var e := s.window.dispatched[i];
              && 1 <= e.id <= |s.log|
              && e.name == s.log[e.id - 1].name && e.payload == s.log[e.id - 1].payload
              && e.windowId == s.log[e.id - 1].windowId && MeantFor(s.log[e.id - 1], window)
  {
    RunKeepsOrder(System([], WindowState(0, [])), window, steps);
  }

  /**
   An attentive window has, of all that was published up to its cursor, exactly the events
   meant for it.
   */
  lemma ExactlyOwnEvents(window: string, steps: seq<Step>, k: nat)
    requires Attentive(System([], WindowState(0, [])), window, steps)
    requires |RunSteps(System([], WindowState(0, [])), window, steps).log| <= MAX_EXACT_ID
    requires k < RunSteps(System([], WindowState(0, [])), window, steps).window.cursor
    ensures var s := RunSteps(System([], WindowState(0, [])), window, steps);
            k < |s.log| && (Has(s.window.dispatched, s.log, k) <==> MeantFor(s.log[k], window))
  {
    RunKeepsCaughtUp(System([], WindowState(0, [])), window, steps);
    var s := RunSteps(System([], WindowState(0, [])), window, steps);
    VisibleHas(s.log, 0, s.window.cursor, window, k);
  }

  /** An event the cursor has passed without dispatching it is never dispatched. */
  lemma SkippedForever(s: System, window: string, steps: seq<Step>, id: nat)
    requires Orderly(s, window) && |RunSteps(s, window, steps).log| <= MAX_EXACT_ID
    requires id <= s.window.cursor
    requires forall e | e in s.window.dispatched :: e.id != id
    ensures forall e | e in RunSteps(s, window, steps).window.dispatched :: e.id != id
  {
    RunKeepsOrder(s, window, steps);
    var d, d' := s.window.dispatched, RunSteps(s, window, steps).window.dispatched;
    assert d' == d + d'[|d|..];
  }

  lemma {:induction false} IdsNeverExceedNext(log: seq<ClientEvent>)
    ensures var h := HubAfter(log);
            && h.nextId == (if |log| <= MAX_EVENT_ID then |log| else MAX_EVENT_ID)
            && forall i | 0 <= i < |h.events| :: h.events[i].id <= h.nextId
  {
    if log != [] {
      IdsNeverExceedNext(log[..|log| - 1]);
    }
  }

  lemma {:induction false} NothingAfter(events: seq<PublishedEvent>, after: nat, window: string)
    requires forall i | 0 <= i < |events| :: events[i].id <= after
    ensures EventsAfter(events, after, window) == []
  {
    if events != [] {
      NothingAfter(events[1..], after, window);
    }
  }

  /**
   The id counter saturates, so the bound on the log in the results above is needed: once
   every id is used, whatever is published next is never found by an up-to-date window.
   */
  lemma SaturatedHubIsSilent(log: seq<ClientEvent>, more: seq<ClientEvent>, window: string)
    requires |log| >= MAX_EVENT_ID
    ensures EventsAfter(HubAfter(log + more).events, HubAfter(log).nextId, window) == []
  {
    IdsNeverExceedNext(log);
    IdsNeverExceedNext(log + more);
    NothingAfter(HubAfter(log + more).events, HubAfter(log).nextId, window);
  }

  /**
   Beyond 2 to the power 53 the bridge rounds the cursor, so the smaller bound is needed for
   the window: it asks again from the rounded cursor and is given the same event twice.
   */
  lemma RoundedCursorRepeats(s: System, window: string)
    requires |s.log| == MAX_EXACT_ID + 1 && s.window.cursor == MAX_EXACT_ID
    requires s.log[MAX_EXACT_ID].windowId.None?
    ensures var event := Stamp(MAX_EXACT_ID + 1, s.log[MAX_EXACT_ID]);
            && RunSteps(s, window, [Poll([], false)]).window.dispatched == s.window.dispatched + [event]
            && RunSteps(s, window, [Poll([], false), Poll([], false)]).window.dispatched
               == s.window.dispatched + [event, event]
  {
    var event := Stamp(MAX_EXACT_ID + 1, s.log[MAX_EXACT_ID]);
    PollFinds(s.log, MAX_EXACT_ID, window);
    assert VisibleBetween(s.log, MAX_EXACT_ID, |s.log|, window) == [event];
    RoundedDown();
    var s' := Next(s, window, Poll([], false));
    assert s.log + [] == s.log && Found(s, window) == [event];
    assert s'.log == s.log && s'.window.cursor == MAX_EXACT_ID;
    assert RunSteps(s', window, []) == s';
    assert [Poll([], false), Poll([], false)][1..] == [Poll([], false)];
    var s'' := Next(s', window, Poll([], false));
    assert RunSteps(s'', window, []) == s'';
  }

  lemma RoundedDown()
    ensures AsNumber(MAX_EXACT_ID + 1) == MAX_EXACT_ID
  {
    assert Spacing(MAX_EXACT_ID + 1, 2) == 2;
    assert (MAX_EXACT_ID + 1) / 2 == MAX_EXACT_ID / 2;
  }

  // --------------------------------------------------------------- the endpoint

  /** What other threads publish while `poll` waits, up to the first time it finds something. */
  function Waited(log: seq<ClientEvent>, after: nat, window: string, arrivals: seq<seq<ClientEvent>>): seq<ClientEvent>
    decreases |arrivals|
  {
    if arrivals == [] || EventsAfter(HubAfter(log).events, after, window) != [] then []
    else arrivals[0] + Waited(log + arrivals[0], after, window, arrivals[1..])
  }

  // --------------------------------------------------------------- the classes

  class EventHub {
    var nextId: nat
    var events: seq<PublishedEvent>
    ghost var log: seq<ClientEvent>

    ghost predicate Valid()
      reads this
    {
      HubState(nextId, events) == HubAfter(log) && |events| <= EVENT_HISTORY_LIMIT
    }

    constructor ()
      ensures Valid() && log == []
    {
      nextId, events, log := 0, [], [];
    }

    method Publish(event: ClientEvent)
      requires Valid()
      modifies this
      ensures Valid() && log == old(log) + [event]
    {
      nextId := SaturatingNext(nextId);
      events := events + [Stamp(nextId, event)];
      ghost var pushed := events;
      while |events| > EVENT_HISTORY_LIMIT
        invariant |events| <= |pushed| && events == pushed[|pushed| - |events|..]
        invariant |pushed| > EVENT_HISTORY_LIMIT ==> |events| >= EVENT_HISTORY_LIMIT
        invariant |pushed| <= EVENT_HISTORY_LIMIT ==> events == pushed
        invariant nextId == SaturatingNext(old(nextId)) && log == old(log)
      {
        events := events[1..];
      }
      log := log + [event];
      assert log[..|log| - 1] == old(log);
    }

    /**
     `poll`: search, and while nothing is found wait for more to be published.
     `arrivals` is what other threads publish during each wait; when there is no
     further wait the deadline has passed.
     */
    method Search(after: nat, window: string, arrivals: seq<seq<ClientEvent>>) returns (found: seq<PublishedEvent>)
      requires Valid()
      modifies this
      ensures Valid() && log == old(log) + Waited(old(log), after, window, arrivals)
      ensures found == EventsAfter(events, after, window)
    {
      found := EventsAfter(events, after, window);
      var i := 0;
      ghost var goal := log + Waited(log, after, window, arrivals);
      while found == [] && i < |arrivals|
        invariant 0 <= i <= |arrivals|
        invariant Valid() && log + Waited(log, after, window, arrivals[i..]) == goal
        invariant found == EventsAfter(events, after, window)
        decreases |arrivals| - i
      {
        assert arrivals[i..][0] == arrivals[i] && arrivals[i..][1..] == arrivals[i + 1..];
        Associates(log, arrivals[i], Waited(log + arrivals[i], after, window, arrivals[i + 1..]));
        PublishAll(arrivals[i]);
        i := i + 1;
        found := EventsAfter(events, after, window);
      }
      assert log + [] == log;
    }

    /** The `events` endpoint; `gap` is what is published between the search and the latest id. */
    method Events(after: nat, window: string, arrivals: seq<seq<ClientEvent>>, gap: seq<ClientEvent>)
      returns (found: seq<PublishedEvent>, cursor: nat)
      requires Valid()
      modifies this
      ensures Valid()
      ensures var searched := old(log) + Waited(old(log), after, window, arrivals);
              && log == searched + gap
              && found == EventsAfter(HubAfter(searched).events, after, window)
              && cursor == ReplyCursor(found, HubAfter(log).nextId)
    {
      found := Search(after, window, arrivals);
      PublishAll(gap);
      cursor := if found == [] then nextId else found[|found| - 1].id;
    }

    method PublishAll(batch: seq<ClientEvent>)
      requires Valid()
      modifies this
      ensures Valid() && log == old(log) + batch
    {
      assert old(log) + [] == old(log);
      for i := 0 to |batch|
        invariant Valid() && log == old(log) + batch[..i]
      {
        Publish(batch[i]);
        assert batch[..i + 1] == batch[..i] + [batch[i]];
      }
      assert batch[..|batch|] == batch;
    }
  }

  /**
   What happens during one turn of the bridge's poll loop: what is published before the
   request arrives, during its waits and in its gap, and whether the response is lost.
   */
  datatype Attempt = Attempt(
    before: seq<ClientEvent>,
    arrivals: seq<seq<ClientEvent>>,
    gap: seq<ClientEvent>,
    lost: bool)

  /** What is published until the search of this turn ends. */
  function Beforehand(s: System, window: string, a: Attempt): seq<ClientEvent> {
    a.before + Waited(s.log + a.before, s.window.cursor, window, a.arrivals)
  }

  function AfterAttempt(s: System, window: string, a: Attempt): System {
    Next(s.(log := s.log + Beforehand(s, window, a)), window, Poll(a.gap, a.lost))
  }

  function AfterAttempts(s: System, window: string, attempts: seq<Attempt>): System
    decreases |attempts|
  {
    if attempts == [] then s else AfterAttempts(AfterAttempt(s, window, attempts[0]), window, attempts[1..])
  }

  function Publishes(batch: seq<ClientEvent>): seq<Step> {
    seq(|batch|, i requires 0 <= i < |batch| => Publish(batch[i]))
  }

  /** The turns as steps of the system: publications, then one round trip, for each of them. */
  function StepsOf(s: System, window: string, attempts: seq<Attempt>): seq<Step>
    decreases |attempts|
  {
    if attempts == [] then []
    else
      Publishes(Beforehand(s, window, attempts[0])) + [Poll(attempts[0].gap, attempts[0].lost)]
      + StepsOf(AfterAttempt(s, window, attempts[0]), window, attempts[1..])
  }

  lemma {:induction false} RunConcat(s: System, window: string, a: seq<Step>, b: seq<Step>)
    ensures RunSteps(s, window, a + b) == RunSteps(RunSteps(s, window, a), window, b)
    decreases |a|
  {
    if a == [] {
      assert a + b == b;
    } else {
      assert (a + b)[1..] == a[1..] + b;
      RunConcat(Next(s, window, a[0]), window, a[1..], b);
    }
  }

  lemma {:induction false} RunPublishes(s: System, window: string, batch: seq<ClientEvent>)
    ensures RunSteps(s, window, Publishes(batch)) == s.(log := s.log + batch)
    decreases |batch|
  {
    if batch == [] {
      assert s.log + batch == s.log;
    } else {
      assert Publishes(batch)[1..] == Publishes(batch[1..]);
      RunPublishes(Next(s, window, Publish(batch[0])), window, batch[1..]);
      assert s.log + [batch[0]] + batch[1..] == s.log + batch;
    }
  }

  lemma RunAttempt(s: System, window: string, a: Attempt)
    ensures RunSteps(s, window, Publishes(Beforehand(s, window, a)) + [Poll(a.gap, a.lost)])
         == AfterAttempt(s, window, a)
  {
    var batch, poll := Beforehand(s, window, a), Poll(a.gap, a.lost);
    RunPublishes(s, window, batch);
    RunConcat(s, window, Publishes(batch), [poll]);
    var mid := s.(log := s.log + batch);
    assert RunSteps(mid, window, [poll]) == RunSteps(Next(mid, window, poll), window, []);
  }

  /** The turns of the loop are a run of the system, so what holds of its runs holds of the loop. */
  lemma {:induction false} AttemptsAreSteps(s: System, window: string, attempts: seq<Attempt>)
    ensures AfterAttempts(s, window, attempts) == RunSteps(s, window, StepsOf(s, window, attempts))
    decreases |attempts|
  {
    if attempts != [] {
      var a, s' := attempts[0], AfterAttempt(s, window, attempts[0]);
      RunAttempt(s, window, a);
      RunConcat(s, window, Publishes(Beforehand(s, window, a)) + [Poll(a.gap, a.lost)],
                StepsOf(s', window, attempts[1..]));
      AttemptsAreSteps(s', window, attempts[1..]);
    }
  }

  class BridgeWindow {
    const windowId: string
    var cursor: nat
    var dispatched: seq<PublishedEvent>

    constructor (windowId: string)
      ensures this.windowId == windowId && cursor == 0 && dispatched == []
    {
      this.windowId, cursor, dispatched := windowId, 0, [];
    }

    ghost function View(hub: EventHub): System
      reads this, hub
    {
      System(hub.log, WindowState(cursor, dispatched))
    }

    /** The events of a response, one by one. */
    method DispatchAll(found: seq<PublishedEvent>)
      modifies this`dispatched
      ensures dispatched == old(dispatched) + found
    {
      for k := 0 to |found|
        invariant dispatched == old(dispatched) + found[..k]
      {
        dispatched := dispatched + [found[k]];
      }
      assert found[..|found|] == found;
    }

    /** One turn: a request, and if its response arrives, the new cursor and the events. */
    method Turn(hub: EventHub, a: Attempt)
      requires hub.Valid()
      modifies this, hub
      ensures hub.Valid() && View(hub) == AfterAttempt(old(View(hub)), windowId, a)
    {
      ghost var s := View(hub);
      hub.PublishAll(a.before);
      var found, latest := hub.Events(cursor, windowId, a.arrivals, a.gap);
      Associates(s.log, a.before, Waited(s.log + a.before, s.window.cursor, windowId, a.arrivals));
      if !a.lost {
        cursor := AsNumber(latest);
        DispatchAll(found);
      }
    }

    /** The bridge's `poll` loop: keep the reply's cursor, then dispatch its events one by one. */
    method PollLoop(hub: EventHub, attempts: seq<Attempt>)
      requires hub.Valid()
      modifies this, hub
      ensures hub.Valid()
      ensures View(hub) == AfterAttempts(old(View(hub)), windowId, attempts)
    {
      assert attempts[0..] == attempts;
      for i := 0 to |attempts|
        invariant hub.Valid()
        invariant AfterAttempts(View(hub), windowId, attempts[i..]) == AfterAttempts(old(View(hub)), windowId, attempts)
      {
        assert attempts[i..][0] == attempts[i] && attempts[i..][1..] == attempts[i + 1..];
        Turn(hub, attempts[i]);
      }
    }
  }
}
