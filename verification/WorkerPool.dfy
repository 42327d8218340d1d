/**
 Isolated workers: the part of the bootstrap contract that concerns windows (protocol
 lib.rs), the key under which a window's requests run, and the keyed worker pool
 (gateway.rs).
 */
module WorkerPool {
  import opened Outcomes
  import opened Identifiers

  const MAIN_WINDOW_ID: string := "main"

  datatype Isolation = Shared | PerWindow | PerWorkspace

  datatype Role = Primary | Child | Modal | Popover | Panel | Palette

  datatype Profile = Profile(role: Role, parent: Option<string>)

  /** The fields of a bootstrap that decide about keys and workers. */
  datatype Bootstrap = Bootstrap(
    windows: seq<string>,
    parallelWorkerCount: nat,
    isolation: Isolation,
    profiles: map<string, Profile>,
    hasParallelCommand: bool)

  predicate NeedsParent(role: Role) {
    role.Child? || role.Modal? || role.Popover?
  }

  /** What `validate` demands of these fields. It does not exclude cyclic parents. */
  ghost predicate Valid(b: Bootstrap) {
    && b.windows != [] && MAIN_WINDOW_ID in b.windows
    && (forall i | 0 <= i < |b.windows| :: ValidIdentifier(b.windows[i]))
    && (forall i, j | 0 <= i < j < |b.windows| :: b.windows[i] != b.windows[j])
    && 1 <= b.parallelWorkerCount <= 16
    && forall id | id in b.profiles ::
         && id in b.windows
         && (NeedsParent(b.profiles[id].role) <==> b.profiles[id].parent.Some?)
         && (b.profiles[id].parent.Some? ==> b.profiles[id].parent.value in b.windows)
  }

  // ------------------------------------------------------------ the window tree

  function Parent(b: Bootstrap, w: string): Option<string> {
    if w in b.profiles then b.profiles[w].parent else None
  }

  /** The `n`-th ancestor of a window. */
  function Ancestor(b: Bootstrap, w: string, n: nat): Option<string>
    decreases n
  {
    if n == 0 then Some(w)
    else
      var p := Parent(b, w);
      if p.None? then None else Ancestor(b, p.value, n - 1)
  }

  /** `r` is the window at the top of `w`'s chain of parents. */
  ghost predicate RootOf(b: Bootstrap, w: string, r: string) {
    Parent(b, r).None? && exists n: nat :: Ancestor(b, w, n) == Some(r)
  }

  ghost predicate HasRoot(b: Bootstrap, w: string) {
    exists r :: RootOf(b, w, r)
  }

  /** No window is its own proper ancestor. */
  ghost predicate Acyclic(b: Bootstrap) {
    forall w, n: nat | w in b.windows && n > 0 :: Ancestor(b, w, n) != Some(w)
  }

  lemma {:induction false} AncestorStep(b: Bootstrap, w: string, n: nat)
    requires Ancestor(b, w, n).Some?
    ensures Ancestor(b, w, n + 1) == Parent(b, Ancestor(b, w, n).value)
    decreases n
  {
    if n == 0 {
      var p := Parent(b, w);
      assert p.Some? ==> Ancestor(b, p.value, 0) == p;
    } else {
      AncestorStep(b, Parent(b, w).value, n - 1);
    }
  }

  lemma {:induction false} AncestorAdd(b: Bootstrap, w: string, m: nat, n: nat)
    requires Ancestor(b, w, m).Some?
    ensures Ancestor(b, w, m + n) == Ancestor(b, Ancestor(b, w, m).value, n)
    decreases m
  {
    if m > 0 {
      AncestorAdd(b, Parent(b, w).value, m - 1, n);
    }
  }

  lemma {:induction false} AncestorRegistered(b: Bootstrap, w: string, n: nat)
    requires Valid(b) && w in b.windows && Ancestor(b, w, n).Some?
    ensures Ancestor(b, w, n).value in b.windows
    decreases n
  {
    if n > 0 {
      AncestorRegistered(b, Parent(b, w).value, n - 1);
    }
  }

  lemma {:induction false} NoneStaysNone(b: Bootstrap, w: string, m: nat, n: nat)
    requires m <= n && Ancestor(b, w, m).None?
    ensures Ancestor(b, w, n).None?
    decreases m
  {
    if m > 0 {
      var p := Parent(b, w);
      if p.Some? {
        NoneStaysNone(b, p.value, m - 1, n - 1);
      }
    }
  }

  /** Distinct ancestors: a chain that comes back to itself never ends. */
  lemma {:induction false} RepeatNeverEnds(b: Bootstrap, w: string, i: nat, j: nat, n: nat)
    requires i < j && Ancestor(b, w, i).Some? && Ancestor(b, w, i) == Ancestor(b, w, j)
    ensures Ancestor(b, w, n).Some?
    decreases n
  {
    if n < j {
      if Ancestor(b, w, n).None? {
        NoneStaysNone(b, w, n, j);
      }
    } else {
      RepeatNeverEnds(b, w, i, j, n - (j - i));
      AncestorAdd(b, w, j, n - j);
      AncestorAdd(b, w, i, n - j);
      assert i + (n - j) == n - (j - i);
    }
  }

  function Elements<T>(s: seq<T>): set<T> {
    set x | x in s
  }

  lemma {:induction false} DistinctSize<T>(s: seq<T>)
    requires forall i, j | 0 <= i < j < |s| :: s[i] != s[j]
    ensures |Elements(s)| == |s|
  {
    if s != [] {
      DistinctSize(s[1..]);
      assert Elements(s) == Elements(s[1..]) + {s[0]};
    }
  }

  lemma SubsetSize<T>(a: set<T>, b: set<T>)
    requires a <= b
    ensures |a| <= |b|
  {
    assert b == a + (b - a);
  }

  /** Pigeonhole: more ancestors than windows repeat one. */
  lemma LongChainRepeats(b: Bootstrap, w: string) returns (i: nat, j: nat)
    requires Valid(b) && w in b.windows && Ancestor(b, w, |b.windows|).Some?
    ensures i < j && Ancestor(b, w, i).Some? && Ancestor(b, w, i) == Ancestor(b, w, j)
  {
    var k := |b.windows| + 1;
    forall i: nat | i < k
      ensures Ancestor(b, w, i).Some? && Ancestor(b, w, i).value in b.windows
    {
      if Ancestor(b, w, i).None? {
        NoneStaysNone(b, w, i, |b.windows|);
      }
      AncestorRegistered(b, w, i);
    }
    var path := seq(k, i requires 0 <= i < k => Ancestor(b, w, i).value);
    i, j := SomeRepeat(path, b.windows);
  }

  lemma SomeRepeat<T>(path: seq<T>, pool: seq<T>) returns (i: nat, j: nat)
    requires forall n | 0 <= n < |path| :: path[n] in pool
    requires |path| > |pool|
    ensures i < j < |path| && path[i] == path[j]
  {
    if forall i, j | 0 <= i < j < |path| :: path[i] != path[j] {
      DistinctSize(path);
      SubsetSize(Elements(path), Elements(pool));
      ElementsSize(pool);
      assert false;
    }
    i, j :| 0 <= i < j < |path| && path[i] == path[j];
  }

  lemma {:induction false} ElementsSize<T>(s: seq<T>)
    ensures |Elements(s)| <= |s|
  {
    if s != [] {
      ElementsSize(s[1..]);
      assert Elements(s) == Elements(s[1..]) + {s[0]};
    }
  }

  // -------------------------------------------------------------- the walk

  /** Where the walk of `isolation_key` ends and whether the depth guard cut it off. */
  datatype Walk = Walk(window: string, guarded: bool)

  function WalkFrom(b: Bootstrap, current: string, depth: nat): Walk
    decreases |b.windows| + 1 - depth
  {
    var p := Parent(b, current);
    if p.None? then Walk(current, false)
    else if depth + 1 > |b.windows| then Walk(p.value, true)
    else WalkFrom(b, p.value, depth + 1)
  }

  function Key(b: Bootstrap, w: string): string {
    if b.isolation == PerWorkspace then WalkFrom(b, w, 0).window else w
  }

  /**
   `isolation_key`, with the steps it takes: never more than one for each window and one
   more, and that many exactly when the parents run into a cycle.
   */
  method IsolationKey(b: Bootstrap, w: string) returns (key: string, steps: nat)
    requires Valid(b) && w in b.windows
    ensures key == Key(b, w) && key in b.windows
    ensures b.isolation != PerWorkspace ==> key == w && steps == 0
    ensures b.isolation == PerWorkspace && HasRoot(b, w) ==> RootOf(b, w, key)
    ensures Ancestor(b, w, steps) == Some(key) && steps <= |b.windows| + 1
    ensures steps == |b.windows| + 1 <==> b.isolation == PerWorkspace && !HasRoot(b, w)
  {
    key, steps := w, 0;
    if b.isolation == PerWorkspace {
      GuardFiresExactly(b, w);
      WalkEnds(b, w, 0);
      while Parent(b, key).Some?
        invariant steps <= |b.windows| && key in b.windows && Ancestor(b, w, steps) == Some(key)
        invariant WalkFrom(b, w, 0) == WalkFrom(b, key, steps)
        decreases |b.windows| - steps
      {
        AncestorStep(b, w, steps);
        key := Parent(b, key).value;
        steps := steps + 1;
        if steps > |b.windows| {
          break;
        }
      }
    }
  }

  /** Three windows, two of them each other's parents. */
  const CYCLIC: Bootstrap :=
    Bootstrap(
      [MAIN_WINDOW_ID, "a", "b"],
      1,
      PerWorkspace,
      map["a" := Profile(Child, Some("b")), "b" := Profile(Child, Some("a"))],
      false)

  /** Validation lets cycles pass; then two windows of one cycle can have different keys. */
  lemma CyclesAreValid()
    ensures Valid(CYCLIC) && !Acyclic(CYCLIC)
    ensures !HasRoot(CYCLIC, "a") && !HasRoot(CYCLIC, "b")
    ensures Parent(CYCLIC, "a") == Some("b") && Key(CYCLIC, "a") != Key(CYCLIC, "b")
  {
    assert MAIN_WINDOW_ID != "a" && MAIN_WINDOW_ID != "b" && "a" != "b" by {
      assert MAIN_WINDOW_ID[0] == 'm' && "a"[0] == 'a' && "b"[0] == 'b';
    }
    assert CYCLIC.windows[0] == MAIN_WINDOW_ID && CYCLIC.windows[1] == "a" && CYCLIC.windows[2] == "b";
    forall i | 0 <= i < |CYCLIC.windows|
      ensures ValidIdentifier(CYCLIC.windows[i])
    {
    }
    assert WalkFrom(CYCLIC, "a", 2) == WalkFrom(CYCLIC, "b", 3) == Walk("a", true);
    assert WalkFrom(CYCLIC, "b", 2) == WalkFrom(CYCLIC, "a", 3) == Walk("b", true);
    assert WalkFrom(CYCLIC, "a", 0) == WalkFrom(CYCLIC, "b", 1) == WalkFrom(CYCLIC, "a", 2);
    assert WalkFrom(CYCLIC, "b", 0) == WalkFrom(CYCLIC, "a", 1) == WalkFrom(CYCLIC, "b", 2);
    GuardFiresExactly(CYCLIC, "a");
    GuardFiresExactly(CYCLIC, "b");
    assert !Acyclic(CYCLIC) by {
      if Acyclic(CYCLIC) {
        AcyclicHasRoots(CYCLIC, "a");
      }
    }
  }

  /** The walk follows the chain of ancestors up to the root or to the guard. */
  lemma {:induction false} WalkEnds(b: Bootstrap, w: string, depth: nat)
    requires Ancestor(b, w, depth).Some? && depth <= |b.windows|
    ensures var walk := WalkFrom(b, Ancestor(b, w, depth).value, depth);
            && (walk.guarded ==>
                  && Ancestor(b, w, |b.windows| + 1) == Some(walk.window)
                  && Ancestor(b, w, |b.windows|).Some?)
            && (!walk.guarded ==> RootOf(b, w, walk.window))
    decreases |b.windows| + 1 - depth
  {
    AncestorStep(b, w, depth);
    var here := Ancestor(b, w, depth).value;
    if Parent(b, here).Some? && depth + 1 <= |b.windows| {
      WalkEnds(b, w, depth + 1);
    }
  }

  lemma RootIsUnique(b: Bootstrap, w: string, r: string, q: string)
    requires RootOf(b, w, r) && RootOf(b, w, q)
    ensures r == q
  {
    var m: nat :| Ancestor(b, w, m) == Some(r);
    var n: nat :| Ancestor(b, w, n) == Some(q);
    AncestorStep(b, w, m);
    AncestorStep(b, w, n);
    if m < n {
      NoneStaysNone(b, w, m + 1, n);
    } else if n < m {
      NoneStaysNone(b, w, n + 1, m);
    }
  }

  /** The guard fires exactly for the windows whose chain of parents runs into a cycle. */
  lemma GuardFiresExactly(b: Bootstrap, w: string)
    requires Valid(b) && w in b.windows
    ensures WalkFrom(b, w, 0).guarded <==> !HasRoot(b, w)
  {
    assert Ancestor(b, w, 0) == Some(w);
    WalkEnds(b, w, 0);
    if WalkFrom(b, w, 0).guarded && HasRoot(b, w) {
      var r :| RootOf(b, w, r);
      var n: nat :| Ancestor(b, w, n) == Some(r);
      AncestorStep(b, w, n);
      var i, j := LongChainRepeats(b, w);
      RepeatNeverEnds(b, w, i, j, n + 1);
      assert false;
    }
  }

  /** With acyclic parents every window has a root, so the guard never fires. */
  lemma AcyclicHasRoots(b: Bootstrap, w: string)
    requires Valid(b) && Acyclic(b) && w in b.windows
    ensures HasRoot(b, w) && RootOf(b, w, WalkFrom(b, w, 0).window) && !WalkFrom(b, w, 0).guarded
  {
    assert Ancestor(b, w, 0) == Some(w);
    WalkEnds(b, w, 0);
    if WalkFrom(b, w, 0).guarded {
      AcyclicChainIsShort(b, w);
      assert false;
    }
  }

  lemma AcyclicChainIsShort(b: Bootstrap, w: string)
    requires Valid(b) && Acyclic(b) && w in b.windows
    ensures Ancestor(b, w, |b.windows|).None?
  {
    if Ancestor(b, w, |b.windows|).Some? {
      var i, j := LongChainRepeats(b, w);
      AncestorRegistered(b, w, i);
      AncestorAdd(b, w, i, j - i);
      assert false;
    }
  }

  /** Two windows of an acyclic workspace tree share a key exactly when they share a root. */
  lemma SameKeyExactly(b: Bootstrap, v: string, w: string)
    requires Valid(b) && Acyclic(b) && b.isolation == PerWorkspace
    requires v in b.windows && w in b.windows
    ensures Key(b, v) == Key(b, w) <==> exists r :: RootOf(b, v, r) && RootOf(b, w, r)
  {
    AcyclicHasRoots(b, v);
    AcyclicHasRoots(b, w);
    if r :| RootOf(b, v, r) && RootOf(b, w, r) {
      RootIsUnique(b, v, r, Key(b, v));
      RootIsUnique(b, w, r, Key(b, w));
    }
  }

  lemma KeyRegistered(b: Bootstrap, w: string)
    requires Valid(b) && w in b.windows
    ensures Key(b, w) in b.windows
  {
    if b.isolation == PerWorkspace {
      assert Ancestor(b, w, 0) == Some(w);
      WalkEnds(b, w, 0);
      var walk := WalkFrom(b, w, 0);
      var n: nat :| Ancestor(b, w, n) == Some(walk.window);
      AncestorRegistered(b, w, n);
    }
  }

  // ---------------------------------------------------------------- the pool

  /** `requested_parallel_count`. */
  function RequestedCount(b: Bootstrap): nat {
    if b.isolation != Shared then
      if b.parallelWorkerCount >= |b.windows| then b.parallelWorkerCount else |b.windows|
    else if b.hasParallelCommand then b.parallelWorkerCount
    else 0
  }

  datatype PoolError = NotConfigured | CapacityExhausted

  datatype Pool = Pool(count: nat, affinities: map<string, nat>, nextAffinity: nat)

  /** The worker that `request_keyed` picks, and the pool afterwards. */
  function Pick(p: Pool, key: string): (Pool, Result<nat, PoolError>) {
    if p.count == 0 then (p, Err(NotConfigured))
    else if key in p.affinities then (p, Ok(p.affinities[key]))
    else
      var index := p.nextAffinity;
      var bumped := p.(nextAffinity := index + 1);
      if index >= p.count then (bumped, Err(CapacityExhausted))
      else (bumped.(affinities := p.affinities[key := index]), Ok(index))
  }

  /** Each key has its own worker, and workers are handed out in order. */
  ghost predicate Sticky(p: Pool) {
    && p.nextAffinity >= |p.affinities|
    && (p.nextAffinity <= p.count ==> p.nextAffinity == |p.affinities|)
    && (forall k | k in p.affinities :: p.affinities[k] < p.nextAffinity && p.affinities[k] < p.count)
    && forall k, l | k in p.affinities && l in p.affinities && k != l :: p.affinities[k] != p.affinities[l]
  }

  function PoolAfter(p: Pool, keys: seq<string>): Pool
    decreases |keys|
  {
    if keys == [] then p else PoolAfter(Pick(p, keys[0]).0, keys[1..])
  }

  lemma PickKeepsSticky(p: Pool, key: string)
    requires Sticky(p)
    ensures var (p', r) := Pick(p, key);
            && Sticky(p') && p'.count == p.count
            && (forall k | k in p.affinities :: k in p'.affinities && p'.affinities[k] == p.affinities[k])
            && p'.affinities.Keys <= p.affinities.Keys + {key}
            && (r.Ok? ==> key in p'.affinities && p'.affinities[key] == r.value && r.value < p.count)
  {
    var p' := Pick(p, key).0;
    if p.count > 0 && key !in p.affinities && p.nextAffinity < p.count {
      assert p'.affinities.Keys == p.affinities.Keys + {key};
    }
  }

  /** Keys of a validated application never outnumber the workers its pool is prepared with. */
  ghost predicate Prepared(b: Bootstrap, p: Pool) {
    && p.count == RequestedCount(b)
    && Sticky(p) && p.nextAffinity <= p.count
    && p.affinities.Keys <= Elements(b.windows)
  }

  lemma PickSucceeds(b: Bootstrap, p: Pool, key: string)
    requires Valid(b) && b.isolation != Shared && Prepared(b, p) && key in b.windows
    ensures Pick(p, key).1.Ok? && Prepared(b, Pick(p, key).0)
  {
    PickKeepsSticky(p, key);
    if key !in p.affinities {
      assert p.affinities.Keys + {key} <= Elements(b.windows);
      SubsetSize(p.affinities.Keys + {key}, Elements(b.windows));
      DistinctSize(b.windows);
    }
  }

  ghost predicate Extended(p: Pool, q: Pool) {
    forall k | k in p.affinities :: k in q.affinities && q.affinities[k] == p.affinities[k]
  }

  lemma {:induction false} RunExtends(p: Pool, keys: seq<string>)
    requires Sticky(p)
    ensures Extended(p, PoolAfter(p, keys))
    decreases |keys|
  {
    if keys != [] {
      PickKeepsSticky(p, keys[0]);
      RunExtends(Pick(p, keys[0]).0, keys[1..]);
    }
  }

  lemma {:induction false} RunKeepsPrepared(b: Bootstrap, p: Pool, windows: seq<string>)
    requires Valid(b) && b.isolation != Shared && Prepared(b, p)
    requires Registered(b, windows)
    ensures Prepared(b, PoolAfter(p, Keys(b, windows)))
    decreases |windows|
  {
    if windows != [] {
      var key := Key(b, windows[0]);
      KeyRegistered(b, windows[0]);
      PickSucceeds(b, p, key);
      assert Keys(b, windows)[1..] == Keys(b, windows[1..]);
      RunKeepsPrepared(b, Pick(p, key).0, windows[1..]);
    }
  }

  function Keys(b: Bootstrap, windows: seq<string>): seq<string> {
    seq(|windows|, i requires 0 <= i < |windows| => Key(b, windows[i]))
  }

  /** The pool after the first `i` of a sequence of window requests. */
  function PoolAt(b: Bootstrap, windows: seq<string>, i: nat): Pool
    requires i <= |windows|
  {
    PoolAfter(Pool(RequestedCount(b), map[], 0), Keys(b, windows[..i]))
  }

  /** The worker that serves the `i`-th of a sequence of window requests. */
  function Served(b: Bootstrap, windows: seq<string>, i: nat): Result<nat, PoolError>
    requires i < |windows|
  {
    Pick(PoolAt(b, windows, i), Key(b, windows[i])).1
  }

  lemma PoolAtLater(b: Bootstrap, windows: seq<string>, i: nat, j: nat)
    requires i < j < |windows|
    ensures PoolAt(b, windows, j)
         == PoolAfter(Pick(PoolAt(b, windows, i), Key(b, windows[i])).0, Keys(b, windows[i + 1..j]))
  {
    var rest := [Key(b, windows[i])] + Keys(b, windows[i + 1..j]);
    assert Keys(b, windows[..j]) == Keys(b, windows[..i]) + rest;
    PoolAfterConcat(Pool(RequestedCount(b), map[], 0), Keys(b, windows[..i]), rest);
    assert rest[1..] == Keys(b, windows[i + 1..j]);
  }

  ghost predicate Registered(b: Bootstrap, windows: seq<string>) {
    forall n | 0 <= n < |windows| :: windows[n] in b.windows
  }

  /** A later request gets the worker of an earlier one exactly when it has the same key. */
  lemma LaterPick(b: Bootstrap, p: Pool, key: string, between: seq<string>, later: string)
    requires Valid(b) && b.isolation != Shared && Prepared(b, p)
    requires key in b.windows && later in b.windows
    requires Registered(b, between)
    ensures var (p1, first) := Pick(p, key);
            var (p2, second) := Pick(PoolAfter(p1, Keys(b, between)), later);
            first.Ok? && second.Ok? && (first.value == second.value <==> key == later)
  {
    PickSucceeds(b, p, key);
    PickKeepsSticky(p, key);
    var p1 := Pick(p, key).0;
    RunKeepsPrepared(b, p1, between);
    RunExtends(p1, Keys(b, between));
    var p2 := PoolAfter(p1, Keys(b, between));
    PickSucceeds(b, p2, later);
    PickKeepsSticky(p2, later);
  }

  /**
   In a validated application with isolation, every request of a registered window is
   served, and two requests are served by the same worker exactly when their windows
   have the same key. In particular no request finds the capacity exhausted.
   */
  lemma SameWorkerSameKey(b: Bootstrap, windows: seq<string>, i: nat, j: nat)
    requires Valid(b) && b.isolation != Shared
    requires Registered(b, windows)
    requires i < j < |windows|
    ensures Served(b, windows, i).Ok? && Served(b, windows, j).Ok?
    ensures Served(b, windows, i).value == Served(b, windows, j).value <==>
            Key(b, windows[i]) == Key(b, windows[j])
  {
    RunKeepsPrepared(b, Pool(RequestedCount(b), map[], 0), windows[..i]);
    KeyRegistered(b, windows[i]);
    KeyRegistered(b, windows[j]);
    LaterPick(b, PoolAt(b, windows, i), Key(b, windows[i]), windows[i + 1..j], Key(b, windows[j]));
    PoolAtLater(b, windows, i, j);
  }

  /** The two windows share a root. */
  ghost predicate Related(b: Bootstrap, v: string, w: string) {
    exists r :: RootOf(b, v, r) && RootOf(b, w, r)
  }

  /**
   What isolation means, over any requests of registered windows: all are served; isolated
   by window, two requests share a worker exactly when they come from the same window;
   isolated by workspace, with acyclic parents, exactly when their windows share a root.
   */
  lemma IsolationHolds(b: Bootstrap, windows: seq<string>, i: nat, j: nat)
    requires Valid(b) && b.isolation != Shared
    requires Registered(b, windows)
    requires i < j < |windows|
    ensures Served(b, windows, i).Ok? && Served(b, windows, j).Ok?
    ensures var same := Served(b, windows, i).value == Served(b, windows, j).value;
            && (b.isolation == PerWindow ==> (same <==> windows[i] == windows[j]))
            && (b.isolation == PerWorkspace && Acyclic(b) ==> (same <==> Related(b, windows[i], windows[j])))
  {
    SameWorkerSameKey(b, windows, i, j);
    if b.isolation == PerWorkspace && Acyclic(b) {
      SameKeyExactly(b, windows[i], windows[j]);
    }
  }

  /** A pool with isolation has a worker for each window, and never fewer than configured. */
  lemma CountSuffices(b: Bootstrap)
    requires Valid(b)
    ensures b.isolation != Shared ==>
              && RequestedCount(b) >= |b.windows| && RequestedCount(b) >= b.parallelWorkerCount
              && (RequestedCount(b) == |b.windows| || RequestedCount(b) == b.parallelWorkerCount)
    ensures b.isolation == Shared ==>
              RequestedCount(b) == if b.hasParallelCommand then b.parallelWorkerCount else 0
  {
  }

  lemma {:induction false} PoolAfterConcat(p: Pool, a: seq<string>, b: seq<string>)
    ensures PoolAfter(p, a + b) == PoolAfter(PoolAfter(p, a), b)
    decreases |a|
  {
    if a == [] {
      assert a + b == b;
    } else {
      assert (a + b)[1..] == a[1..] + b;
      PoolAfterConcat(Pick(p, a[0]).0, a[1..], b);
    }
  }

  class WorkerPool {
    const count: nat
    var affinities: map<string, nat>
    var nextAffinity: nat

    ghost function View(): Pool
      reads this
    {
      Pool(count, affinities, nextAffinity)
    }

    /** `prepare`: one forked worker for each place of the pool. */
    constructor (count: nat)
      ensures View() == Pool(count, map[], 0) && Sticky(View())
    {
      this.count, affinities, nextAffinity := count, map[], 0;
    }

    method RequestKeyed(key: string) returns (worker: Result<nat, PoolError>)
      modifies this
      ensures (View(), worker) == Pick(old(View()), key)
    {
      if count == 0 {
        return Err(NotConfigured);
      }
      if key in affinities {
        return Ok(affinities[key]);
      }
      var index := nextAffinity;
      nextAffinity := nextAffinity + 1;
      if index >= count {
        return Err(CapacityExhausted);
      }
      affinities := affinities[key := index];
      return Ok(index);
    }
  }
}
