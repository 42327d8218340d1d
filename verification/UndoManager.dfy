/**
 The undo manager of the workstation runtime (workstation.js, class `UndoManager`).

 The operations act on a document the manager never sees. `History` carries that
 document beside the manager's own fields, so that what the stacks mean can be said:
 the document is the oldest retained state with the undo stack, and then the open
 transaction, replayed on it.
 */
module UndoManager {
  import opened Outcomes

  /** One recorded edit: how to make it again and how to take it back. */
  datatype Operation<!D> = Operation(redo: D -> D, undo: D -> D)

  datatype Entry<!D> = Entry(title: string, operations: seq<Operation<D>>)

  datatype History<!D> = History(
    undo: seq<Entry<D>>,
    redo: seq<Entry<D>>,
    transaction: Option<Entry<D>>,
    limit: int,
    doc: D)

  // ---------------------------------------------------------------- replaying

  /** The document after redoing `ops` from first to last. */
  function Replay<D>(d: D, ops: seq<Operation<D>>): D {
    if ops == [] then d else Replay(ops[0].redo(d), ops[1..])
  }

  /** The document after undoing `ops` from last to first. */
  function Unplay<D>(d: D, ops: seq<Operation<D>>): D {
    if ops == [] then d else Unplay(ops[|ops| - 1].undo(d), ops[..|ops| - 1])
  }

  /** Every undo takes back its redo, at the state where the redo is made. */
  ghost predicate Invertible<D>(d: D, ops: seq<Operation<D>>) {
    ops == [] ||
    (ops[0].undo(ops[0].redo(d)) == d && Invertible(ops[0].redo(d), ops[1..]))
  }

  /** The operations of a stack, oldest entry first. */
  function Operations<D>(entries: seq<Entry<D>>): seq<Operation<D>> {
    if entries == [] then []
    else Operations(entries[..|entries| - 1]) + entries[|entries| - 1].operations
  }

  /** The operations of the redo stack in the order in which redoing makes them. */
  function Pending<D>(redo: seq<Entry<D>>): seq<Operation<D>> {
    if redo == [] then []
    else redo[|redo| - 1].operations + Pending(redo[..|redo| - 1])
  }

  function OpenOperations<D>(h: History<D>): seq<Operation<D>> {
    if h.transaction.Some? then h.transaction.value.operations else []
  }

  lemma OneReplay<D>(d: D, op: Operation<D>)
    ensures Replay(d, [op]) == op.redo(d)
    ensures Unplay(d, [op]) == op.undo(d)
    ensures Invertible(d, [op]) <==> op.undo(op.redo(d)) == d
  {
    assert [op][1..] == [] && [op][..0] == [];
    assert Replay(op.redo(d), []) == op.redo(d);
    assert Unplay(op.undo(d), []) == op.undo(d);
  }

  lemma {:induction false} ReplayConcat<D>(d: D, a: seq<Operation<D>>, b: seq<Operation<D>>)
    ensures Replay(d, a + b) == Replay(Replay(d, a), b)
  {
    if a == [] {
      assert a + b == b;
    } else {
      assert (a + b)[1..] == a[1..] + b;
      ReplayConcat(a[0].redo(d), a[1..], b);
    }
  }

  lemma {:induction false} InvertibleConcat<D>(d: D, a: seq<Operation<D>>, b: seq<Operation<D>>)
    ensures Invertible(d, a + b) <==> Invertible(d, a) && Invertible(Replay(d, a), b)
  {
    if a == [] {
      assert a + b == b;
    } else {
      assert (a + b)[1..] == a[1..] + b;
      InvertibleConcat(a[0].redo(d), a[1..], b);
    }
  }

  lemma {:induction false} UnplayConcat<D>(d: D, a: seq<Operation<D>>, b: seq<Operation<D>>)
    ensures Unplay(d, a + b) == Unplay(Unplay(d, b), a)
  {
    if b == [] {
      assert a + b == a;
    } else {
      assert (a + b)[..|a + b| - 1] == a + b[..|b| - 1];
      UnplayConcat(b[|b| - 1].undo(d), a, b[..|b| - 1]);
    }
  }

  /** Undoing in reverse order takes back a whole replay, not only its last step. */
  lemma {:induction false} UnplayReplay<D>(d: D, ops: seq<Operation<D>>)
    requires Invertible(d, ops)
    ensures Unplay(Replay(d, ops), ops) == d
  {
    if ops != [] {
      UnplayReplay(ops[0].redo(d), ops[1..]);
      assert ops == [ops[0]] + ops[1..];
      UnplayConcat(Replay(d, ops), [ops[0]], ops[1..]);
      OneReplay(ops[0].redo(d), ops[0]);
    }
  }

  lemma {:induction false} OperationsConcat<D>(a: seq<Entry<D>>, b: seq<Entry<D>>)
    ensures Operations(a + b) == Operations(a) + Operations(b)
  {
    if b == [] {
      assert a + b == a;
    } else {
      assert (a + b)[..|a + b| - 1] == a + b[..|b| - 1];
      OperationsConcat(a, b[..|b| - 1]);
    }
  }

  lemma OperationsOne<D>(e: Entry<D>)
    ensures Operations([e]) == e.operations
  {
    assert [e][..0] == [];
  }

  // ------------------------------------------------------------- the commands

  datatype Command<!D> =
    | Begin(title: string)
    | Record(operation: Operation<D>)
    | Commit
    | Rollback
    | Undo
    | Redo

  /** `#commit`: push, drop the oldest entry over the limit, forget the redo stack. */
  function Push<D>(h: History<D>, e: Entry<D>): History<D> {
    var undo := h.undo + [e];
    h.(undo := if |undo| > h.limit then undo[1..] else undo, redo := [])
  }

  /**
   What each call does to the manager and to the document. The caller makes an edit
   itself and then records it, so `Record` stands for the edit and the call together.
   `Begin` on an open transaction throws and changes nothing.
   */
  function Step<D>(h: History<D>, c: Command<D>): History<D> {
    match c
    case Begin(title) =>
      if h.transaction.Some? then h else h.(transaction := Some(Entry(title, [])))
    case Record(op) =>
      var edited := h.(doc := op.redo(h.doc));
      if h.transaction.Some? then
        var open := h.transaction.value;
        edited.(transaction := Some(open.(operations := open.operations + [op])))
      else Push(edited, Entry("Change", [op]))
    case Commit =>
      var closed := h.(transaction := None);
      if OpenOperations(h) != [] then Push(closed, h.transaction.value) else closed
    case Rollback =>
      h.(transaction := None, doc := Unplay(h.doc, OpenOperations(h)))
    case Undo =>
      if h.undo == [] then h
      else
        var e := h.undo[|h.undo| - 1];
        h.(undo := h.undo[..|h.undo| - 1],
           redo := h.redo + [e],
           doc := Unplay(h.doc, e.operations))
    case Redo =>
      if h.redo == [] then h
      else
        var e := h.redo[|h.redo| - 1];
        h.(redo := h.redo[..|h.redo| - 1],
           undo := h.undo + [e],
           doc := Replay(h.doc, e.operations))
  }

  function Run<D>(h: History<D>, cs: seq<Command<D>>): History<D>
    decreases |cs|
  {
    if cs == [] then h else Run(Step(h, cs[0]), cs[1..])
  }

  // ------------------------------------------------------------- the timeline

  /** The document as it was when the open transaction, if any, began. */
  function Settled<D>(base: D, h: History<D>): D {
    Replay(base, Operations(h.undo))
  }

  /**
   `base` is the oldest retained state: replaying the undo stack and then the open
   transaction on it gives the document, every replayed operation can be taken back,
   and the redo stack can be replayed (and taken back) from the settled document.
   */
  ghost predicate Timeline<D>(base: D, h: History<D>) {
    && h.doc == Replay(base, Operations(h.undo) + OpenOperations(h))
    && Invertible(base, Operations(h.undo) + OpenOperations(h))
    && Invertible(Settled(base, h), Pending(h.redo))
  }

  /** The oldest retained state after a command: it moves when `Push` drops an entry. */
  function BaseAfter<D>(base: D, h: History<D>, c: Command<D>): D {
    var pushed :=
      if c.Record? && h.transaction.None? then [Entry("Change", [c.operation])]
      else if c.Commit? && OpenOperations(h) != [] then [h.transaction.value]
      else [];
    var undo := h.undo + pushed;
    if pushed != [] && |undo| > h.limit then Replay(base, undo[0].operations) else base
  }

  function BaseAfterRun<D>(base: D, h: History<D>, cs: seq<Command<D>>): D
    decreases |cs|
  {
    if cs == [] then base
    else BaseAfterRun(BaseAfter(base, h, cs[0]), Step(h, cs[0]), cs[1..])
  }

  /**
   What a caller owes: a recorded undo takes back the recorded edit where it was made,
   and `undo` and `redo` are not called while a transaction holds operations.
   */
  ghost predicate Legal<D>(h: History<D>, c: Command<D>) {
    match c
    case Record(op) => op.undo(op.redo(h.doc)) == h.doc
    case Undo => OpenOperations(h) == []
    case Redo => OpenOperations(h) == []
    case _ => true
  }

  ghost predicate LegalRun<D>(h: History<D>, cs: seq<Command<D>>)
    decreases |cs|
  {
    cs == [] || (Legal(h, cs[0]) && LegalRun(Step(h, cs[0]), cs[1..]))
  }

  /** Pushing the entry that leads from the settled document to the present one. */
  lemma PushKeepsTimeline<D>(base: D, h: History<D>, e: Entry<D>)
    requires h.transaction.None?
    requires h.doc == Replay(base, Operations(h.undo) + e.operations)
    requires Invertible(base, Operations(h.undo) + e.operations)
    ensures var undo := h.undo + [e];
            var base' := if |undo| > h.limit then Replay(base, undo[0].operations) else base;
            Timeline(base', Push(h, e))
  {
    var undo := h.undo + [e];
    var h' := Push(h, e);
    OperationsConcat(h.undo, [e]);
    OperationsOne(e);
    assert Operations(undo) == Operations(h.undo) + e.operations;
    assert Operations(h'.undo) + OpenOperations(h') == Operations(h'.undo);
    if |undo| > h.limit {
      assert undo == [undo[0]] + undo[1..];
      OperationsConcat([undo[0]], undo[1..]);
      OperationsOne(undo[0]);
      ReplayConcat(base, undo[0].operations, Operations(undo[1..]));
      InvertibleConcat(base, undo[0].operations, Operations(undo[1..]));
    }
  }

  /** A recorded edit extends the replay by one operation that can be taken back. */
  lemma RecordExtends<D>(base: D, h: History<D>, op: Operation<D>)
    requires Timeline(base, h) && op.undo(op.redo(h.doc)) == h.doc
    ensures var ops := Operations(h.undo) + OpenOperations(h) + [op];
            Replay(base, ops) == op.redo(h.doc) && Invertible(base, ops)
  {
    var ops := Operations(h.undo) + OpenOperations(h);
    ReplayConcat(base, ops, [op]);
    InvertibleConcat(base, ops, [op]);
    OneReplay(h.doc, op);
  }

  lemma RecordKeepsTimeline<D>(base: D, h: History<D>, op: Operation<D>)
    requires Timeline(base, h) && Legal(h, Record(op))
    ensures Timeline(BaseAfter(base, h, Record(op)), Step(h, Record(op)))
  {
    RecordExtends(base, h, op);
    var ops := Operations(h.undo) + OpenOperations(h) + [op];
    if h.transaction.Some? {
      var h' := Step(h, Record(op));
      assert Operations(h'.undo) + OpenOperations(h') == ops;
    } else {
      assert ops == Operations(h.undo) + [op];
      PushKeepsTimeline(base, h.(doc := op.redo(h.doc)), Entry("Change", [op]));
    }
  }

  lemma RollbackKeepsTimeline<D>(base: D, h: History<D>)
    requires Timeline(base, h)
    ensures Timeline(base, Step(h, Rollback))
    ensures Step(h, Rollback).doc == Settled(base, h)
  {
    var ops := OpenOperations(h);
    var h' := Step(h, Rollback);
    ReplayConcat(base, Operations(h.undo), ops);
    InvertibleConcat(base, Operations(h.undo), ops);
    UnplayReplay(Settled(base, h), ops);
    assert Operations(h'.undo) + OpenOperations(h') == Operations(h.undo);
  }

  lemma UndoKeepsTimeline<D>(base: D, h: History<D>)
    requires Timeline(base, h) && Legal(h, Undo) && h.undo != []
    ensures Timeline(base, Step(h, Undo))
    ensures Step(h, Undo).doc == Replay(base, Operations(h.undo[..|h.undo| - 1]))
  {
    var rest, e := h.undo[..|h.undo| - 1], h.undo[|h.undo| - 1];
    var h' := Step(h, Undo);
    var before := Replay(base, Operations(rest));
    assert Operations(h.undo) + OpenOperations(h) == Operations(rest) + e.operations;
    ReplayConcat(base, Operations(rest), e.operations);
    InvertibleConcat(base, Operations(rest), e.operations);
    UnplayReplay(before, e.operations);
    assert Operations(h'.undo) + OpenOperations(h') == Operations(rest);
    assert h'.redo[..|h'.redo| - 1] == h.redo;
    assert Settled(base, h) == Replay(before, e.operations) by {
      assert Operations(h.undo) == Operations(rest) + e.operations;
    }
    InvertibleConcat(before, e.operations, Pending(h.redo));
  }

  lemma RedoKeepsTimeline<D>(base: D, h: History<D>)
    requires Timeline(base, h) && Legal(h, Redo) && h.redo != []
    ensures Timeline(base, Step(h, Redo))
  {
    var rest, e := h.redo[..|h.redo| - 1], h.redo[|h.redo| - 1];
    var h' := Step(h, Redo);
    assert Operations(h.undo) + OpenOperations(h) == Operations(h.undo);
    assert h'.undo[..|h'.undo| - 1] == h.undo;
    assert Operations(h'.undo) + OpenOperations(h') == Operations(h.undo) + e.operations;
    assert Operations(h'.undo) == Operations(h.undo) + e.operations;
    ReplayConcat(base, Operations(h.undo), e.operations);
    InvertibleConcat(h.doc, e.operations, Pending(rest));
    InvertibleConcat(base, Operations(h.undo), e.operations);
  }

  lemma BeginKeepsTimeline<D>(base: D, h: History<D>, title: string)
    requires Timeline(base, h)
    ensures Timeline(base, Step(h, Begin(title)))
  {
    assert OpenOperations(Step(h, Begin(title))) == OpenOperations(h);
  }

  lemma CommitKeepsTimeline<D>(base: D, h: History<D>)
    requires Timeline(base, h)
    ensures Timeline(BaseAfter(base, h, Commit), Step(h, Commit))
  {
    if OpenOperations(h) != [] {
      PushKeepsTimeline(base, h.(transaction := None), h.transaction.value);
    } else {
      assert OpenOperations(Step(h, Commit)) == OpenOperations(h);
    }
  }

  /** Every legal command keeps the document at the end of the timeline. */
  lemma StepKeepsTimeline<D>(base: D, h: History<D>, c: Command<D>)
    requires Timeline(base, h) && Legal(h, c)
    ensures Timeline(BaseAfter(base, h, c), Step(h, c))
  {
    match c
    case Begin(title) => BeginKeepsTimeline(base, h, title);
    case Record(op) => RecordKeepsTimeline(base, h, op);
    case Commit => CommitKeepsTimeline(base, h);
    case Rollback => RollbackKeepsTimeline(base, h);
    case Undo => if h.undo != [] { UndoKeepsTimeline(base, h); }
    case Redo => if h.redo != [] { RedoKeepsTimeline(base, h); }
  }

  /** The document law over whole runs. */
  lemma {:induction false} RunKeepsTimeline<D>(base: D, h: History<D>, cs: seq<Command<D>>)
    requires Timeline(base, h) && LegalRun(h, cs)
    ensures Timeline(BaseAfterRun(base, h, cs), Run(h, cs))
    decreases |cs|
  {
    if cs != [] {
      StepKeepsTimeline(base, h, cs[0]);
      RunKeepsTimeline(BaseAfter(base, h, cs[0]), Step(h, cs[0]), cs[1..]);
    }
  }

  // ----------------------------------------------------- undo against redo

  function Repeat<D>(c: Command<D>, n: nat): seq<Command<D>> {
    seq(n, _ => c)
  }

  lemma {:induction false} RunConcat<D>(h: History<D>, a: seq<Command<D>>, b: seq<Command<D>>)
    ensures Run(h, a + b) == Run(Run(h, a), b)
    decreases |a|
  {
    if a == [] {
      assert a + b == b;
    } else {
      assert (a + b)[1..] == a[1..] + b;
      RunConcat(Step(h, a[0]), a[1..], b);
    }
  }

  /** Undo and redo move the same entry between the stacks, one way and the other. */
  lemma UndoRedoStacks<D>(h: History<D>)
    requires h.undo != []
    ensures var ops := h.undo[|h.undo| - 1].operations;
            Step(Step(h, Undo), Redo) == h.(doc := Replay(Unplay(h.doc, ops), ops))
  {
    var h' := Step(h, Undo);
    assert h'.redo[..|h'.redo| - 1] == h.redo;
    assert h.undo == h'.undo + [h.undo[|h.undo| - 1]];
  }

  lemma RedoUndoStacks<D>(h: History<D>)
    requires h.redo != []
    ensures var ops := h.redo[|h.redo| - 1].operations;
            Step(Step(h, Redo), Undo) == h.(doc := Unplay(Replay(h.doc, ops), ops))
  {
    var h' := Step(h, Redo);
    assert h'.undo[..|h'.undo| - 1] == h.undo;
    assert h.redo == h'.redo + [h.redo[|h.redo| - 1]];
  }

  /** Redoing right after undoing restores the stacks and the document exactly. */
  lemma UndoRedo<D>(base: D, h: History<D>)
    requires Timeline(base, h) && Legal(h, Undo) && h.undo != []
    ensures Step(Step(h, Undo), Redo) == h
  {
    var rest, e := h.undo[..|h.undo| - 1], h.undo[|h.undo| - 1];
    UndoKeepsTimeline(base, h);
    ReplayConcat(base, Operations(rest), e.operations);
    assert Operations(h.undo) + OpenOperations(h) == Operations(rest) + e.operations;
    UndoRedoStacks(h);
  }

  lemma RedoUndo<D>(base: D, h: History<D>)
    requires Timeline(base, h) && Legal(h, Redo) && h.redo != []
    ensures Step(Step(h, Redo), Undo) == h
  {
    var rest, e := h.redo[..|h.redo| - 1], h.redo[|h.redo| - 1];
    assert Operations(h.undo) + OpenOperations(h) == Operations(h.undo);
    InvertibleConcat(h.doc, e.operations, Pending(rest));
    UnplayReplay(h.doc, e.operations);
    RedoUndoStacks(h);
  }

  lemma RunOne<D>(h: History<D>, c: Command<D>)
    ensures Run(h, [c]) == Step(h, c)
  {
    assert [c][1..] == [];
    assert Run(Step(h, c), []) == Step(h, c);
  }

  /** A repeated command, its first call or its last one split off. */
  lemma RepeatSplit<D>(h: History<D>, c: Command<D>, n: nat)
    requires n > 0
    ensures Run(h, Repeat(c, n)) == Run(Step(h, c), Repeat(c, n - 1))
    ensures Run(h, Repeat(c, n)) == Step(Run(h, Repeat(c, n - 1)), c)
  {
    assert Repeat(c, n)[1..] == Repeat(c, n - 1);
    assert Repeat(c, n) == Repeat(c, n - 1) + [c];
    RunConcat(h, Repeat(c, n - 1), [c]);
    RunOne(Run(h, Repeat(c, n - 1)), c);
  }

  /** However far back the user goes, as many redos bring everything back. */
  lemma {:induction false} UndosThenRedos<D>(base: D, h: History<D>, n: nat)
    requires Timeline(base, h) && OpenOperations(h) == [] && n <= |h.undo|
    ensures Run(Run(h, Repeat(Undo, n)), Repeat(Redo, n)) == h
    decreases n
  {
    if n > 0 {
      UndoKeepsTimeline(base, h);
      RepeatSplit(h, Undo, n);
      UndosThenRedos(base, Step(h, Undo), n - 1);
      RepeatSplit(Run(h, Repeat(Undo, n)), Redo, n);
      UndoRedo(base, h);
    }
  }

  // --------------------------------------------------------- transactions

  function Records<D>(ops: seq<Operation<D>>): seq<Command<D>> {
    seq(|ops|, i requires 0 <= i < |ops| => Record(ops[i]))
  }

  /** Recording inside a transaction only makes the edits and collects them. */
  lemma {:induction false} RecordsInTransaction<D>(h: History<D>, ops: seq<Operation<D>>)
    requires h.transaction.Some?
    ensures Run(h, Records(ops)) ==
            h.(transaction := Some(h.transaction.value.(operations := OpenOperations(h) + ops)),
               doc := Replay(h.doc, ops))
    decreases |ops|
  {
    if ops == [] {
      assert OpenOperations(h) + ops == OpenOperations(h);
    } else {
      assert Records(ops)[1..] == Records(ops[1..]);
      RecordsInTransaction(Step(h, Record(ops[0])), ops[1..]);
      assert OpenOperations(h) + [ops[0]] + ops[1..] == OpenOperations(h) + ops;
    }
  }

  /** A transaction of some edits, whatever is called next. */
  lemma TransactionRun<D>(h: History<D>, title: string, ops: seq<Operation<D>>, next: seq<Command<D>>)
    requires h.transaction.None?
    ensures Run(h, [Begin(title)] + Records(ops) + next)
         == Run(h.(transaction := Some(Entry(title, ops)), doc := Replay(h.doc, ops)), next)
  {
    var begun := Step(h, Begin(title));
    var all := [Begin(title)] + Records(ops) + next;
    assert all[0] == Begin(title) && all[1..] == Records(ops) + next;
    RunConcat(begun, Records(ops), next);
    RecordsInTransaction(begun, ops);
    assert OpenOperations(begun) + ops == ops;
  }

  /** A rolled back transaction leaves no trace: document and both stacks are as before. */
  lemma RollbackIsNeutral<D>(h: History<D>, title: string, ops: seq<Operation<D>>)
    requires h.transaction.None? && Invertible(h.doc, ops)
    ensures Run(h, [Begin(title)] + Records(ops) + [Rollback]) == h
  {
    TransactionRun(h, title, ops, [Rollback]);
    RunOne(h.(transaction := Some(Entry(title, ops)), doc := Replay(h.doc, ops)), Rollback);
    UnplayReplay(h.doc, ops);
  }

  /** An entry just pushed is the one that undo takes. */
  lemma PushThenUndo<D>(h: History<D>, e: Entry<D>)
    requires h.limit >= 1
    ensures Step(Push(h, e), Undo)
         == h.(undo := if |h.undo| < h.limit then h.undo else h.undo[1..],
               redo := [e],
               doc := Unplay(h.doc, e.operations))
  {
    var undo := h.undo + [e];
    if |undo| > h.limit {
      assert undo[1..] == h.undo[1..] + [e];
    }
  }

  /** An edit outside a transaction is one entry, under the default title, and one undo step. */
  lemma RecordUndoesAsOne<D>(h: History<D>, op: Operation<D>)
    requires h.transaction.None? && op.undo(op.redo(h.doc)) == h.doc && h.limit >= 1
    ensures var h' := Step(Step(h, Record(op)), Undo);
            && h'.doc == h.doc
            && h'.redo == [Entry("Change", [op])]
            && h'.undo == (if |h.undo| < h.limit then h.undo else h.undo[1..])
  {
    PushThenUndo(h.(doc := op.redo(h.doc)), Entry("Change", [op]));
    OneReplay(op.redo(h.doc), op);
  }

  /** A committed transaction is undone as one step, back to where it began. */
  lemma CommitUndoesAsOne<D>(h: History<D>, title: string, ops: seq<Operation<D>>)
    requires h.transaction.None? && Invertible(h.doc, ops) && ops != [] && h.limit >= 1
    ensures var h' := Run(h, [Begin(title)] + Records(ops) + [Commit, Undo]);
            && h'.doc == h.doc
            && h'.redo == [Entry(title, ops)]
            && h'.undo == (if |h.undo| < h.limit then h.undo else h.undo[1..])
  {
    var full := h.(transaction := Some(Entry(title, ops)), doc := Replay(h.doc, ops));
    TransactionRun(h, title, ops, [Commit, Undo]);
    assert [Commit, Command<D>.Undo][1..] == [Undo];
    RunOne(Step(full, Commit), Undo);
    PushThenUndo(full.(transaction := None), Entry(title, ops));
    UnplayReplay(h.doc, ops);
  }

  // ---------------------------------------------------------------- bounds

  ghost predicate Bounded<D>(h: History<D>) {
    |h.undo| + |h.redo| <= if h.limit < 0 then 0 else h.limit
  }

  /** Undo and redo entries together never exceed the limit, legal calls or not. */
  lemma {:induction false} RunKeepsBound<D>(h: History<D>, cs: seq<Command<D>>)
    requires Bounded(h)
    ensures Bounded(Run(h, cs)) && Run(h, cs).limit == h.limit
    decreases |cs|
  {
    if cs != [] {
      RunKeepsBound(Step(h, cs[0]), cs[1..]);
    }
  }

  // ------------------------------------------- undo inside a transaction

  /** `k` entries of one edit each, every edit adding three. */
  function Additions(k: nat): seq<Entry<int>> {
    if k == 0 then []
    else Additions(k - 1) + [Entry("Change", [AddThree()])]
  }

  function AddThree(): Operation<int> {
    Operation((x: int) => x + 3, (x: int) => x - 3)
  }

  /** `m` edits that all leave seven behind, the first of them made at `s`. */
  function Overwrites(s: int, m: nat): seq<Operation<int>> {
    if m == 0 then []
    else Overwrites(s, m - 1) + [Operation((x: int) => 7, (x: int) => if m == 1 then s else 7)]
  }

  lemma AdditionsGrow(k: nat)
    requires k > 0
    ensures Operations(Additions(k)) == Operations(Additions(k - 1)) + [AddThree()]
  {
    var e := Entry("Change", [AddThree()]);
    OperationsConcat(Additions(k - 1), [e]);
    OperationsOne(e);
  }

  lemma {:induction false} AdditionsCount(k: nat)
    ensures |Additions(k)| == k
  {
    if k > 0 {
      AdditionsCount(k - 1);
    }
  }

  lemma {:induction false} AdditionsReplay(k: nat)
    ensures Replay(0, Operations(Additions(k))) == 3 * k
    ensures Invertible(0, Operations(Additions(k)))
  {
    if k > 0 {
      AdditionsReplay(k - 1);
      AdditionsGrow(k);
      OneReplay(3 * (k - 1), AddThree());
      ReplayConcat(0, Operations(Additions(k - 1)), [AddThree()]);
      InvertibleConcat(0, Operations(Additions(k - 1)), [AddThree()]);
    }
  }

  /** On the redo stack the same entries can be made from any document. */
  lemma {:induction false} AdditionsPending(d: int, k: nat)
    ensures Invertible(d, Pending(Additions(k)))
    decreases k
  {
    if k > 0 {
      var stack := Additions(k);
      assert stack[|stack| - 1].operations == [AddThree()] && stack[..|stack| - 1] == Additions(k - 1);
      AdditionsPending(d + 3, k - 1);
      OneReplay(d, AddThree());
      InvertibleConcat(d, [AddThree()], Pending(Additions(k - 1)));
    }
  }

  lemma {:induction false} OverwritesReplay(d: int, s: int, m: nat)
    ensures |Overwrites(s, m)| == m
    ensures Replay(d, Overwrites(s, m)) == if m == 0 then d else 7
    ensures Invertible(s, Overwrites(s, m))
    decreases m
  {
    if m > 0 {
      OverwritesReplay(d, s, m - 1);
      OverwritesReplay(s, s, m - 1);
      var last := Overwrites(s, m)[m - 1];
      ReplayConcat(d, Overwrites(s, m - 1), [last]);
      InvertibleConcat(s, Overwrites(s, m - 1), [last]);
      OneReplay(Replay(d, Overwrites(s, m - 1)), last);
      OneReplay(Replay(s, Overwrites(s, m - 1)), last);
    }
  }

  /** Undo keeps the timeline of every history with `k` undo entries and `m` open operations. */
  ghost predicate UndoSafe(k: nat, m: nat) {
    forall h: History<int>, base: int |
      Timeline(base, h) && |h.undo| == k && |OpenOperations(h)| == m ::
      Timeline(base, Step(h, Undo))
  }

  /**
   `undo` does not look at the open transaction. It is safe exactly when there is nothing
   to undo or no operation is open; otherwise some document is left that no replay explains.
   */
  lemma UndoSafeExactly(k: nat, m: nat)
    ensures UndoSafe(k, m) <==> k == 0 || m == 0
  {
    if k == 0 || m == 0 {
      forall h: History<int>, base: int |
        Timeline(base, h) && |h.undo| == k && |OpenOperations(h)| == m
        ensures Timeline(base, Step(h, Undo))
      {
        if k > 0 {
          UndoKeepsTimeline(base, h);
        }
      }
    } else {
      UndoInsideTransaction(k, m);
    }
  }

  lemma UndoInsideTransaction(k: nat, m: nat)
    requires k > 0 && m > 0
    ensures !UndoSafe(k, m)
  {
    var open := Overwrites(3 * k, m);
    var h := History(Additions(k), [], Some(Entry("Change", open)), 500, 7);
    AdditionsCount(k);
    AdditionsReplay(k);
    OverwritesReplay(3 * k, 3 * k, m);
    ReplayConcat(0, Operations(h.undo), open);
    InvertibleConcat(0, Operations(h.undo), open);
    assert Timeline(0, h);
    var h' := Step(h, Undo);
    OneReplay(7, AddThree());
    ReplayConcat(0, Operations(h'.undo), open);
    OverwritesReplay(Replay(0, Operations(h'.undo)), 3 * k, m);
    assert !Timeline(0, h');
  }

  // ------------------------------------------- redo inside a transaction

  /** Redo keeps the timeline of every history with `k` redo entries and `m` open operations. */
  ghost predicate RedoSafe(k: nat, m: nat) {
    forall h: History<int>, base: int |
      Timeline(base, h) && |h.redo| == k && |OpenOperations(h)| == m ::
      Timeline(base, Step(h, Redo))
  }

  /** `redo` does not look at the open transaction either: it slips its entry in underneath. */
  lemma RedoSafeExactly(k: nat, m: nat)
    ensures RedoSafe(k, m) <==> k == 0 || m == 0
  {
    if k == 0 || m == 0 {
      forall h: History<int>, base: int |
        Timeline(base, h) && |h.redo| == k && |OpenOperations(h)| == m
        ensures Timeline(base, Step(h, Redo))
      {
        if k > 0 {
          RedoKeepsTimeline(base, h);
        }
      }
    } else {
      RedoInsideTransaction(k, m);
    }
  }

  lemma RedoInsideTransaction(k: nat, m: nat)
    requires k > 0 && m > 0
    ensures !RedoSafe(k, m)
  {
    var open := Overwrites(0, m);
    var h := History([], Additions(k), Some(Entry("Change", open)), 500, 7);
    AdditionsCount(k);
    AdditionsPending(0, k);
    OverwritesReplay(0, 0, m);
    assert Operations(h.undo) + OpenOperations(h) == open;
    assert Timeline(0, h);
    var e, h' := Entry("Change", [AddThree()]), Step(h, Redo);
    assert h'.undo == [e];
    OperationsOne(e);
    OneReplay(7, AddThree());
    ReplayConcat(0, [AddThree()], open);
    OverwritesReplay(Replay(0, [AddThree()]), 0, m);
    assert !Timeline(0, h');
  }

  /** One call after another, as a run. */
  lemma RunFirst<D>(h: History<D>, c: Command<D>, cs: seq<Command<D>>)
    ensures Run(h, [c] + cs) == Run(Step(h, c), cs)
    ensures LegalRun(h, [c] + cs) <==> Legal(h, c) && LegalRun(Step(h, c), cs)
  {
    assert ([c] + cs)[1..] == cs;
  }

  lemma RunOfTwo<D>(h: History<D>, a: Command<D>, b: Command<D>, cs: seq<Command<D>>)
    ensures Run(h, [a, b] + cs) == Run(Step(Step(h, a), b), cs)
    ensures LegalRun(h, [a, b] + cs) <==> Legal(h, a) && Legal(Step(h, a), b) && LegalRun(Step(Step(h, a), b), cs)
  {
    assert [a, b] + cs == [a] + ([b] + cs);
    RunFirst(h, a, [b] + cs);
    RunFirst(Step(h, a), b, cs);
  }

  /** Three, taken back, and an overwriting edit in a new transaction. */
  lemma AddUndoOverwrite(overwrite: Operation<int>)
    requires overwrite.redo(0) == 7
    ensures var start, e := History([], [], None, 500, 0), Entry("Change", [AddThree()]);
            && Step(start, Record(AddThree())) == History([e], [], None, 500, 3)
            && Step(History([e], [], None, 500, 3), Undo) == History([], [e], None, 500, 0)
            && Step(Step(History([], [e], None, 500, 0), Begin("Change")), Record(overwrite))
               == History([], [e], Some(Entry("Change", [overwrite])), 500, 7)
  {
    OneReplay(3, AddThree());
    assert [] + [overwrite] == [overwrite];
  }

  /** The states in which redo fails are reached by legal calls from a new manager. */
  lemma RedoFailureIsReached(overwrite: Operation<int>)
    requires overwrite == Overwrites(0, 1)[0]
    ensures var start := History([], [], None, 500, 0);
            var calls := [Record(AddThree()), Undo] + [Begin("Change"), Record(overwrite)];
            && LegalRun(start, calls)
            && Step(Run(start, calls), Redo).doc == 10
            && !Timeline(0, Step(Run(start, calls), Redo))
  {
    assert overwrite.redo(0) == 7 && overwrite.undo(7) == 0;
    AddUndoOverwrite(overwrite);
    RunOfTwo(History([], [], None, 500, 0), Record(AddThree()), Undo, [Begin("Change"), Record(overwrite)]);
    assert [Begin("Change"), Record(overwrite)] + [] == [Begin("Change"), Record(overwrite)];
    RunOfTwo(History([], [Entry("Change", [AddThree()])], None, 500, 0), Begin("Change"), Record(overwrite), []);
    RedoneUnder(Entry("Change", [AddThree()]), overwrite);
  }

  lemma RedoneUnder(e: Entry<int>, overwrite: Operation<int>)
    requires e == Entry("Change", [AddThree()]) && overwrite == Overwrites(0, 1)[0]
    ensures var h := Step(History([], [e], Some(Entry("Change", [overwrite])), 500, 7), Redo);
            h.doc == 10 && !Timeline(0, h)
  {
    OperationsOne(e);
    OneReplay(7, AddThree());
    OneReplay(0, AddThree());
    OneReplay(3, overwrite);
    ReplayConcat(0, [AddThree()], [overwrite]);
  }

  // ------------------------------------------------------------- the class

  class UndoManager<!D> {
    var undoStack: seq<Entry<D>>
    var redoStack: seq<Entry<D>>
    var transaction: Option<Entry<D>>
    const limit: int
    // The document the recorded operations act on; owned by the application.
    var doc: D

    ghost function View(): History<D>
      reads this
    {
      History(undoStack, redoStack, transaction, limit, doc)
    }

    constructor (limit: int, doc: D)
      ensures View() == History([], [], None, limit, doc)
      ensures Timeline(doc, View()) && Bounded(View())
    {
      this.undoStack, this.redoStack, this.transaction := [], [], None;
      this.limit, this.doc := limit, doc;
      new;
      assert Operations<D>([]) + [] == [];
    }

    /** Reports whether the call was accepted; a nested `begin` throws. */
    method Begin(title: string) returns (accepted: bool)
      modifies this`transaction
      ensures accepted == old(transaction).None?
      ensures View() == Step(old(View()), Command.Begin(title))
    {
      accepted := transaction.None?;
      if accepted {
        transaction := Some(Entry(title, []));
      }
    }

    /** The caller has just turned `before` into the present document by `op.redo`. */
    method Record(op: Operation<D>, ghost before: D)
      requires doc == op.redo(before)
      modifies this
      ensures View() == Step(old(View()).(doc := before), Command.Record(op))
    {
      if transaction.Some? {
        transaction := Some(transaction.value.(operations := transaction.value.operations + [op]));
      } else {
        PushEntry(Entry("Change", [op]));
      }
    }

    method Commit()
      modifies this
      ensures View() == Step(old(View()), Command.Commit)
    {
      var value := transaction;
      transaction := None;
      if value.Some? && |value.value.operations| > 0 {
        PushEntry(value.value);
      }
    }

    method Rollback()
      modifies this
      ensures View() == Step(old(View()), Command.Rollback)
    {
      var value := transaction;
      transaction := None;
      if value.Some? {
        TakeBack(value.value.operations);
      }
    }

    method Undo() returns (done: bool)
      modifies this
      ensures done == (old(undoStack) != [])
      ensures View() == Step(old(View()), Command.Undo)
    {
      done := |undoStack| > 0;
      if done {
        var value := undoStack[|undoStack| - 1];
        undoStack := undoStack[..|undoStack| - 1];
        TakeBack(value.operations);
        redoStack := redoStack + [value];
      }
    }

    method Redo() returns (done: bool)
      modifies this
      ensures done == (old(redoStack) != [])
      ensures View() == Step(old(View()), Command.Redo)
    {
      done := |redoStack| > 0;
      if done {
        var value := redoStack[|redoStack| - 1];
        redoStack := redoStack[..|redoStack| - 1];
        for i := 0 to |value.operations|
          invariant View() == old(View()).(redo := redoStack, doc := doc)
          invariant redoStack == old(redoStack)[..|old(redoStack)| - 1]
          invariant doc == Replay(old(doc), value.operations[..i])
        {
          ReplayConcat(old(doc), value.operations[..i], [value.operations[i]]);
          assert value.operations[..i + 1] == value.operations[..i] + [value.operations[i]];
          OneReplay(doc, value.operations[i]);
          doc := value.operations[i].redo(doc);
        }
        assert value.operations[..|value.operations|] == value.operations;
        undoStack := undoStack + [value];
      }
    }

    method PushEntry(value: Entry<D>)
      modifies this`undoStack, this`redoStack
      ensures View() == Push(old(View()), value)
    {
      undoStack := undoStack + [value];
      if |undoStack| > limit {
        undoStack := undoStack[1..];
      }
      redoStack := [];
    }

    /** Undoes the operations from last to first. */
    method TakeBack(operations: seq<Operation<D>>)
      modifies this`doc
      ensures doc == Unplay(old(doc), operations)
    {
      var i := |operations|;
      while i > 0
        invariant 0 <= i <= |operations|
        invariant doc == Unplay(old(doc), operations[i..])
      {
        i := i - 1;
        UnplayConcat(old(doc), [operations[i]], operations[i + 1..]);
        assert operations[i..] == [operations[i]] + operations[i + 1..];
        OneReplay(doc, operations[i]);
        doc := operations[i].undo(doc);
      }
      assert operations[0..] == operations;
    }
  }
}
