/**
 Persistent file grants (native.rs): a map in memory, rewritten as a whole into a file
 after each insertion and rolled back when that fails.

 The JSON of the file is taken to be faithful, so the file is the map it encodes; only
 the number of its bytes is kept, as an arbitrary function of the map.
 */
module GrantStore {
  import opened Outcomes

  const MAX_GRANTS: nat := 128
  const MAX_FILE_BYTES: nat := 1024 * 1024

  datatype Access = Read | Write | ReadWrite

  datatype PersistentGrant = PersistentGrant(path: string, access: Access)

  type Grants = map<string, PersistentGrant>

  datatype GrantError = NoSelection | NoEntropy | NoTarget | TooLarge | NotSaved | Unloadable

  /** The grants usable now, the persistent ones, and the file, which may not exist yet. */
  datatype Store = Store(live: set<string>, persistent: Grants, file: Option<Grants>)

  predicate IsHexDigit(c: char) {
    '0' <= c <= '9' || 'a' <= c <= 'f' || 'A' <= c <= 'F'
  }

  predicate ValidId(id: string) {
    |id| == 64 && forall i | 0 <= i < |id| :: IsHexDigit(id[i])
  }

  predicate IsAbsolute(path: string) {
    path != "" && path[0] == '/'
  }

  // ------------------------------------------------------------------ loading

  /** `load_persistent_grants`. */
  function Load(file: Option<Grants>, bytes: Grants -> nat): Result<Grants, GrantError> {
    if file.None? then Ok(map[])
    else if bytes(file.value) > MAX_FILE_BYTES then Err(Unloadable)
    else if |file.value| > MAX_GRANTS
            || exists id | id in file.value :: !ValidId(id) || !IsAbsolute(file.value[id].path)
    then Err(Unloadable)
    else Ok(file.value)
  }

  // ----------------------------------------------------------------- granting

  /** Where the steps of a save can fail; only a completed rename changes the file. */
  datatype Disk = Works | NoParent | NotEncoded | NotCreated | NotWritten | NotRenamed

  /** `persist_grants`: the new file and the error, if any. */
  function Save(file: Option<Grants>, grants: Grants, disk: Disk): (Option<Grants>, Option<GrantError>) {
    if |grants| > MAX_GRANTS then (file, Some(TooLarge))
    else if !disk.Works? then (file, Some(NotSaved))
    else (Some(grants), None)
  }

  /**
   One call: whether the selection can be granted at all, the random id, the canonical
   target of a persistent grant, and how the disk behaves.
   */
  datatype Call = Call(
    selectable: bool,
    id: Option<string>,
    access: Access,
    persistent: bool,
    target: Option<string>,
    disk: Disk)

  /** `grant_path_with_persistence`. */
  function Grant(s: Store, c: Call): (Store, Result<string, GrantError>) {
    if !c.selectable then (s, Err(NoSelection))
    else if c.id.None? then (s, Err(NoEntropy))
    else
      var id := c.id.value;
      var granted := s.(live := s.live + {id});
      if !c.persistent then (granted, Ok(id))
      else if c.target.None? then (granted, Err(NoTarget))
      else
        var inserted := s.persistent[id := PersistentGrant(c.target.value, c.access)];
        var (file, error) := Save(s.file, inserted, c.disk);
        if error.Some? then
          (Store(granted.live - {id}, inserted - {id}, file), Err(error.value))
        else (Store(granted.live, inserted, file), Ok(id))
  }

  /** The file decodes to the persistent map, which is small enough and well-formed. */
  ghost predicate Consistent(s: Store) {
    && s.persistent == (if s.file.Some? then s.file.value else map[])
    && |s.persistent| <= MAX_GRANTS
    && forall id | id in s.persistent :: ValidId(id) && IsAbsolute(s.persistent[id].path)
  }

  /** Ids are 64 hexadecimal digits and canonical paths are absolute. */
  ghost predicate ValidCall(c: Call) {
    && (c.id.Some? ==> ValidId(c.id.value))
    && (c.target.Some? ==> IsAbsolute(c.target.value))
  }

  /** The call gets as far as saving, the save fails, and the random id was in use already. */
  ghost predicate CollidesAndFails(s: Store, c: Call) {
    && c.selectable && c.persistent && c.target.Some? && !c.disk.Works?
    && c.id.Some? && c.id.value in s.persistent
  }

  lemma RollbackRestores(grants: Grants, id: string, g: PersistentGrant)
    ensures grants[id := g] - {id} == grants <==> id !in grants
    ensures id !in grants ==> |grants[id := g]| == |grants| + 1
    ensures id in grants ==> |grants[id := g]| == |grants|
  {
    if id in grants {
      assert grants[id := g].Keys == grants.Keys;
      assert id !in grants[id := g] - {id};
    } else {
      assert grants[id := g].Keys == grants.Keys + {id};
      assert grants[id := g] - {id} == grants;
    }
  }

  /**
   Whatever step of saving fails, memory and file agree afterwards. The only exception is
   a failed save under an id that was in use: its roll-back removes the older grant.
   */
  lemma GrantKeepsConsistentExactly(s: Store, c: Call)
    requires Consistent(s) && ValidCall(c)
    ensures Consistent(Grant(s, c).0) <==> !CollidesAndFails(s, c)
  {
    if c.selectable && c.id.Some? && c.persistent && c.target.Some? {
      var id := c.id.value;
      RollbackRestores(s.persistent, id, PersistentGrant(c.target.value, c.access));
    }
  }

  function GrantAll(s: Store, calls: seq<Call>): Store
    decreases |calls|
  {
    if calls == [] then s else GrantAll(Grant(s, calls[0]).0, calls[1..])
  }

  /** The random ids of the calls are new and different from each other. */
  ghost predicate FreshIds(s: Store, calls: seq<Call>) {
    && (forall i | 0 <= i < |calls| && calls[i].id.Some? :: calls[i].id.value !in s.persistent)
    && forall i, j | 0 <= i < j < |calls| && calls[i].id.Some? && calls[j].id.Some? :: calls[i].id != calls[j].id
  }

  lemma {:induction false} RunKeepsConsistent(s: Store, calls: seq<Call>)
    requires Consistent(s) && FreshIds(s, calls)
    requires forall i | 0 <= i < |calls| :: ValidCall(calls[i])
    ensures Consistent(GrantAll(s, calls))
    decreases |calls|
  {
    if calls != [] {
      GrantKeepsConsistentExactly(s, calls[0]);
      var s' := Grant(s, calls[0]).0;
      forall i | 0 <= i < |calls[1..]| && calls[1..][i].id.Some?
        ensures calls[1..][i].id.value !in s'.persistent
      {
        assert calls[1..][i] == calls[i + 1];
      }
      RunKeepsConsistent(s', calls[1..]);
    }
  }

  /**
   Starting again reads back exactly the grants that were in memory, if and only if the
   file is within the size the loader accepts: saving does not check that size.
   */
  lemma ReloadReturnsTheGrantsExactly(s: Store, bytes: Grants -> nat)
    requires Consistent(s)
    ensures Load(s.file, bytes) == Ok(s.persistent) <==> s.file.None? || bytes(s.persistent) <= MAX_FILE_BYTES
  {
  }

  /** After any calls with fresh ids, a restart loads what was granted persistently. */
  lemma RestartKeepsGrants(calls: seq<Call>, bytes: Grants -> nat)
    requires FreshIds(Store({}, map[], None), calls)
    requires forall i | 0 <= i < |calls| :: ValidCall(calls[i])
    requires bytes(GrantAll(Store({}, map[], None), calls).persistent) <= MAX_FILE_BYTES
    ensures var s := GrantAll(Store({}, map[], None), calls);
            Load(s.file, bytes) == Ok(s.persistent) && |s.persistent| <= MAX_GRANTS
  {
    RunKeepsConsistent(Store({}, map[], None), calls);
    ReloadReturnsTheGrantsExactly(GrantAll(Store({}, map[], None), calls), bytes);
  }

  // ------------------------------------------------------------ usable grants

  /** The selection is made usable before the target of its persistent grant is resolved. */
  predicate Unresolved(c: Call) {
    c.selectable && c.persistent && c.target.None?
  }

  /**
   What a call leaves usable: its new id when it succeeds, nothing new when it fails, with
   the one exception that a target which cannot be resolved leaves the id usable.
   */
  lemma FailureLeavesGrantExactly(s: Store, c: Call)
    requires c.id.Some? && c.id.value !in s.live
    ensures var (s', r) := Grant(s, c);
            && (r.Err? && c.id.value in s'.live <==> Unresolved(c))
            && (r.Ok? ==> r.value == c.id.value && c.id.value in s'.live)
            && s'.live - {c.id.value} == s.live
  {
  }

  function Replies(s: Store, calls: seq<Call>): (r: seq<Result<string, GrantError>>)
    ensures |r| == |calls|
    decreases |calls|
  {
    if calls == [] then [] else [Grant(s, calls[0]).1] + Replies(Grant(s, calls[0]).0, calls[1..])
  }

  /** The ids of the calls are not in use, and different from each other. */
  ghost predicate UnusedIds(live: set<string>, calls: seq<Call>) {
    && (forall i | 0 <= i < |calls| && calls[i].id.Some? :: calls[i].id.value !in live)
    && forall i, j | 0 <= i < j < |calls| && calls[i].id.Some? :: calls[i].id != calls[j].id
  }

  /** The id was returned by one of the calls, or belongs to one that could not resolve its target. */
  ghost predicate GivenOut(calls: seq<Call>, replies: seq<Result<string, GrantError>>, id: string)
    requires |replies| == |calls|
  {
    exists i | 0 <= i < |calls| :: calls[i].id == Some(id) && (replies[i].Ok? || Unresolved(calls[i]))
  }

  lemma GivenOutFirst(calls: seq<Call>, replies: seq<Result<string, GrantError>>, id: string)
    requires calls != [] && |replies| == |calls|
    ensures GivenOut(calls, replies, id) <==>
            (calls[0].id == Some(id) && (replies[0].Ok? || Unresolved(calls[0])))
            || GivenOut(calls[1..], replies[1..], id)
  {
    if i :| 0 <= i < |calls| && calls[i].id == Some(id) && (replies[i].Ok? || Unresolved(calls[i])) {
      if i > 0 {
        assert calls[1..][i - 1] == calls[i] && replies[1..][i - 1] == replies[i];
      }
    }
    if i :| 0 <= i < |calls[1..]| && calls[1..][i].id == Some(id) && (replies[1..][i].Ok? || Unresolved(calls[1..][i])) {
      assert calls[i + 1] == calls[1..][i] && replies[i + 1] == replies[1..][i];
    }
  }

  /** One call among the usable ids. */
  lemma GrantAddsOwnId(s: Store, c: Call, id: string)
    requires c.id.Some? ==> c.id.value !in s.live
    ensures id in Grant(s, c).0.live <==>
            id in s.live || (c.id == Some(id) && (Grant(s, c).1.Ok? || Unresolved(c)))
  {
    if c.id.Some? {
      FailureLeavesGrantExactly(s, c);
      if id != c.id.value {
        assert id in Grant(s, c).0.live <==> id in Grant(s, c).0.live - {c.id.value};
      }
    }
  }

  lemma UnusedAfterFirst(s: Store, calls: seq<Call>)
    requires calls != [] && UnusedIds(s.live, calls)
    ensures UnusedIds(Grant(s, calls[0]).0.live, calls[1..])
  {
    forall i | 0 <= i < |calls[1..]| && calls[1..][i].id.Some?
      ensures calls[1..][i].id.value !in Grant(s, calls[0]).0.live
    {
      assert calls[1..][i] == calls[i + 1];
      GrantAddsOwnId(s, calls[0], calls[i + 1].id.value);
    }
  }

  /**
   Over any run of calls with unused ids, the usable grants are the earlier ones, those
   returned to a caller, and those of the calls that could not resolve their target.
   */
  lemma {:induction false} UsableGrantsExactly(s: Store, calls: seq<Call>, id: string)
    requires UnusedIds(s.live, calls)
    ensures id in GrantAll(s, calls).live <==> id in s.live || GivenOut(calls, Replies(s, calls), id)
    decreases |calls|
  {
    if calls != [] {
      UnusedAfterFirst(s, calls);
      UsableGrantsExactly(Grant(s, calls[0]).0, calls[1..], id);
      GivenOutFirst(calls, Replies(s, calls), id);
      GrantAddsOwnId(s, calls[0], id);
    }
  }

  // ------------------------------------------------------ what is persisted

  /** When a call succeeds: a persistent one needs its target, room for it, and a working disk. */
  lemma GrantSucceedsExactly(s: Store, c: Call)
    requires Consistent(s) && c.id.Some? && c.id.value !in s.persistent
    ensures Grant(s, c).1.Ok? <==>
            c.selectable && (c.persistent ==> c.target.Some? && |s.persistent| < MAX_GRANTS && c.disk.Works?)
    ensures Grant(s, c).1.Ok? ==> Grant(s, c).1.value == c.id.value
  {
    if c.target.Some? {
      RollbackRestores(s.persistent, c.id.value, PersistentGrant(c.target.value, c.access));
    }
  }

  /** The call is persistent and was answered with its id. */
  predicate Kept(c: Call, r: Result<string, GrantError>) {
    c.persistent && r.Ok?
  }

  /**
   A persistent call that succeeds leaves a file with the earlier grants and its own one, for
   its target and access; any other call leaves the grants of the file as they were.
   */
  lemma GrantPersistsExactly(s: Store, c: Call)
    requires Consistent(s) && (c.id.Some? ==> c.id.value !in s.persistent)
    ensures var (s', r) := Grant(s, c);
            var before := if s.file.Some? then s.file.value else map[];
            if Kept(c, r) then
              && c.id.Some? && c.target.Some?
              && s'.file == Some(before[c.id.value := PersistentGrant(c.target.value, c.access)])
              && s'.persistent == s'.file.value
            else s'.file == s.file && s'.persistent == s.persistent
  {
    if c.id.Some? && c.target.Some? {
      RollbackRestores(s.persistent, c.id.value, PersistentGrant(c.target.value, c.access));
    }
  }

  /** Grant `g` under `id` is what a persistent call of the run that succeeded asked for. */
  ghost predicate AskedFor(calls: seq<Call>, replies: seq<Result<string, GrantError>>, id: string, g: PersistentGrant)
    requires |replies| == |calls|
  {
    exists i | 0 <= i < |calls| ::
      && Kept(calls[i], replies[i]) && calls[i].id == Some(id)
      && calls[i].target == Some(g.path) && calls[i].access == g.access
  }

  lemma AskedForFirst(calls: seq<Call>, replies: seq<Result<string, GrantError>>, id: string, g: PersistentGrant)
    requires calls != [] && |replies| == |calls|
    ensures AskedFor(calls, replies, id, g) <==>
            || (Kept(calls[0], replies[0]) && calls[0].id == Some(id)
                && calls[0].target == Some(g.path) && calls[0].access == g.access)
            || AskedFor(calls[1..], replies[1..], id, g)
  {
    if i :| && 0 <= i < |calls| && Kept(calls[i], replies[i]) && calls[i].id == Some(id)
            && calls[i].target == Some(g.path) && calls[i].access == g.access {
      if i > 0 {
        assert calls[1..][i - 1] == calls[i] && replies[1..][i - 1] == replies[i];
      }
    }
    if i :| && 0 <= i < |calls[1..]| && Kept(calls[1..][i], replies[1..][i]) && calls[1..][i].id == Some(id)
            && calls[1..][i].target == Some(g.path) && calls[1..][i].access == g.access {
      assert calls[i + 1] == calls[1..][i] && replies[i + 1] == replies[1..][i];
    }
  }

  ghost predicate Holds(grants: Grants, id: string, g: PersistentGrant) {
    id in grants && grants[id] == g
  }

  lemma FreshAfterFirst(s: Store, calls: seq<Call>)
    requires Consistent(s) && calls != [] && FreshIds(s, calls) && ValidCall(calls[0])
    ensures Consistent(Grant(s, calls[0]).0) && FreshIds(Grant(s, calls[0]).0, calls[1..])
  {
    GrantKeepsConsistentExactly(s, calls[0]);
    GrantPersistsExactly(s, calls[0]);
    forall i | 0 <= i < |calls[1..]| && calls[1..][i].id.Some?
      ensures calls[1..][i].id.value !in Grant(s, calls[0]).0.persistent
    {
      assert calls[1..][i] == calls[i + 1];
    }
  }

  lemma GrantHolds(s: Store, c: Call, id: string, g: PersistentGrant)
    requires Consistent(s) && (c.id.Some? ==> c.id.value !in s.persistent)
    ensures Holds(Grant(s, c).0.persistent, id, g) <==>
            || Holds(s.persistent, id, g)
            || (Kept(c, Grant(s, c).1) && c.id == Some(id) && c.target == Some(g.path) && c.access == g.access)
  {
    GrantPersistsExactly(s, c);
  }

  /**
   Over any run of calls with fresh ids, the persistent grants are the earlier ones and those
   of the persistent calls that succeeded, each with its own target and access.
   */
  lemma {:induction false} PersistentGrantsExactly(s: Store, calls: seq<Call>, id: string, g: PersistentGrant)
    requires Consistent(s) && FreshIds(s, calls)
    requires forall i | 0 <= i < |calls| :: ValidCall(calls[i])
    ensures Holds(GrantAll(s, calls).persistent, id, g) <==>
            Holds(s.persistent, id, g) || AskedFor(calls, Replies(s, calls), id, g)
    decreases |calls|
  {
    if calls != [] {
      FreshAfterFirst(s, calls);
      PersistentGrantsExactly(Grant(s, calls[0]).0, calls[1..], id, g);
      AskedForFirst(calls, Replies(s, calls), id, g);
      GrantHolds(s, calls[0], id, g);
    }
  }

  /** So a restart after any such calls loads exactly these grants, while the file is within its limit. */
  lemma RestartLoadsExactly(s: Store, calls: seq<Call>, bytes: Grants -> nat, id: string, g: PersistentGrant)
    requires Consistent(s) && FreshIds(s, calls)
    requires forall i | 0 <= i < |calls| :: ValidCall(calls[i])
    requires bytes(GrantAll(s, calls).persistent) <= MAX_FILE_BYTES
    ensures var loaded := Load(GrantAll(s, calls).file, bytes);
            && loaded.Ok? && |loaded.value| <= MAX_GRANTS
            && (Holds(loaded.value, id, g) <==>
                  Holds(s.persistent, id, g) || AskedFor(calls, Replies(s, calls), id, g))
  {
    RunKeepsConsistent(s, calls);
    ReloadReturnsTheGrantsExactly(GrantAll(s, calls), bytes);
    PersistentGrantsExactly(s, calls, id, g);
  }

  /** What a start accepts: no more than the limits, well-formed ids and absolute paths. */
  lemma LoadSucceedsExactly(file: Grants, bytes: Grants -> nat)
    ensures Load(Some(file), bytes) == Ok(file) <==>
            && bytes(file) <= MAX_FILE_BYTES && |file| <= MAX_GRANTS
            && forall id | id in file :: |id| == 64 && file[id].path != "" && file[id].path[0] == '/'
                 && forall i | 0 <= i < |id| :: '0' <= id[i] <= '9' || 'a' <= id[i] <= 'f' || 'A' <= id[i] <= 'F'
    ensures Load(Some(file), bytes).Ok? ==> Load(Some(file), bytes).value == file
  {
  }

  // ------------------------------------------------------------------ the code

  class GrantServices {
    var live: set<string>
    var persistent: Grants
    var file: Option<Grants>

    ghost function View(): Store
      reads this
    {
      Store(live, persistent, file)
    }

    /** `prepare` after a successful load; `usable` are the loaded grants whose target still opens. */
    constructor (file: Option<Grants>, bytes: Grants -> nat, usable: set<string>)
      requires Load(file, bytes).Ok?
      ensures Consistent(View()) && this.file == file && live == usable
    {
      this.file := file;
      persistent := Load(file, bytes).value;
      live := usable;
    }

    method Persist(grants: Grants, disk: Disk) returns (error: Option<GrantError>)
      modifies this`file
      ensures (file, error) == Save(old(file), grants, disk)
    {
      if |grants| > MAX_GRANTS {
        return Some(TooLarge);
      }
      if disk.NoParent? || disk.NotEncoded? {
        return Some(NotSaved);
      }
      var bytes := grants;
      if disk.NotCreated? || disk.NotWritten? {
        return Some(NotSaved);
      }
      var temporary := Some(bytes);
      if disk.NotRenamed? {
        return Some(NotSaved);
      }
      file := temporary;
      return None;
    }

    method GrantPath(c: Call) returns (r: Result<string, GrantError>)
      modifies this
      ensures (View(), r) == Grant(old(View()), c)
    {
      if !c.selectable {
        return Err(NoSelection);
      }
      if c.id.None? {
        return Err(NoEntropy);
      }
      var id := c.id.value;
      live := live + {id};
      if c.persistent {
        if c.target.None? {
          return Err(NoTarget);
        }
        persistent := persistent[id := PersistentGrant(c.target.value, c.access)];
        var error := Persist(persistent, c.disk);
        if error.Some? {
          persistent := persistent - {id};
          live := live - {id};
          return Err(error.value);
        }
      }
      return Ok(id);
    }
  }
}
