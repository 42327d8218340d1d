/**
 Copying a project into an application bundle (packager.rs): a recursion over a graph of
 directories and symbolic links, kept finite by the set of directories on the stack.

 A path is the sequence of its components. `files` is what canonical paths lead to; a
 link carries its resolved canonical target, or none when it dangles. File contents are
 opaque text.
 */
module BundleCopy {
  import opened Outcomes

  type Path = seq<string>

  datatype Node =
    | Directory(names: seq<string>)
    | Regular(content: string)
    | Link(target: Option<Path>)
    | Special

  datatype Context = Context(
    files: map<Path, Node>,
    projectRoot: Path,
    buildOutput: Path,
    excludes: seq<Path>)

  datatype Item = Folder | Copied(content: string)

  /** What the copy creates, by path relative to the destination. */
  type Tree = map<Path, Item>

  datatype CopyError =
    | Cycle(at: Path)
    | Escapes(at: Path)
    | IntoOutput(at: Path)
    | Unresolved(at: Path)
    | Unsupported(at: Path)
    | Unreadable(at: Path)

  /** `Path::starts_with`: whole components. */
  predicate StartsWith(p: Path, prefix: Path) {
    prefix <= p
  }

  // --------------------------------------------------------------- exclusion

  predicate IsExcludedName(name: string) {
    || name in {".git", ".pam", ".pamignore", "dist", "node_modules", "target", ".env"}
    || ".env." <= name
  }

  /** `excluded_path`. */
  predicate Excluded(rel: Path, excludes: seq<Path>) {
    || (exists i | 0 <= i < |rel| :: IsExcludedName(rel[i]))
    || (|rel| >= 2 && rel[0] == "plugins" && rel[1] != "bin")
    || (|rel| >= 1 && rel[0] == "vendor" && exists i | 1 <= i < |rel| :: rel[i] == "vendor")
    || (exists i | 0 <= i < |excludes| :: StartsWith(rel, excludes[i]))
  }

  /** Below an excluded directory everything is excluded. */
  lemma ExclusionIsInherited(rel: Path, below: Path, excludes: seq<Path>)
    requires Excluded(rel, excludes) && rel <= below
    ensures Excluded(below, excludes)
  {
    if i :| 0 <= i < |rel| && IsExcludedName(rel[i]) {
      assert IsExcludedName(below[i]);
    } else if i :| 1 <= i < |rel| && rel[0] == "vendor" && rel[i] == "vendor" {
      assert below[i] == "vendor";
    } else if i :| 0 <= i < |excludes| && StartsWith(rel, excludes[i]) {
      assert StartsWith(below, excludes[i]);
    }
  }

  /** Names that are never copied, wherever they occur. */
  ghost predicate Reserved(name: string) {
    || name == ".git" || name == ".pam" || name == ".pamignore"
    || name == "dist" || name == "node_modules" || name == "target"
    || name == ".env" || (|name| >= 5 && name[..5] == ".env.")
  }

  /**
   A path at which the copy stops, by its own last component or as a whole: a reserved name,
   an environment file, a plugin's source, a vendor directory inside the vendor directory, or
   a path that the configuration excludes.
   */
  ghost predicate Barred(path: Path, excludes: seq<Path>) {
    || (path != [] &&
          var name := path[|path| - 1];
          || Reserved(name)
          || (|path| == 2 && path[0] == "plugins" && name != "bin")
          || (|path| >= 2 && path[0] == "vendor" && name == "vendor"))
    || path in excludes
  }

  /** `excluded_path` looks at a whole path, and bars exactly what lies at or below a barred one. */
  lemma ExcludedExactly(q: Path, excludes: seq<Path>)
    ensures Excluded(q, excludes) <==> exists k | 0 <= k <= |q| :: Barred(q[..k], excludes)
  {
    if k :| 0 <= k <= |q| && Barred(q[..k], excludes) {
      BarredIsExcluded(q[..k], excludes);
      ExclusionIsInherited(q[..k], q, excludes);
    }
    if Excluded(q, excludes) {
      var k := WhereBarred(q, excludes);
    }
  }

  lemma BarredIsExcluded(path: Path, excludes: seq<Path>)
    requires Barred(path, excludes)
    ensures Excluded(path, excludes)
  {
    if path in excludes {
      var i :| 0 <= i < |excludes| && excludes[i] == path;
      assert StartsWith(path, excludes[i]);
    } else {
      var last := |path| - 1;
      assert path[last] == "vendor" || IsExcludedName(path[last]) || (|path| == 2 && path[0] == "plugins");
    }
  }

  lemma WhereBarred(q: Path, excludes: seq<Path>) returns (k: nat)
    requires Excluded(q, excludes)
    ensures k <= |q| && Barred(q[..k], excludes)
  {
    if i :| 0 <= i < |q| && IsExcludedName(q[i]) {
      assert q[..i + 1][i] == q[i];
      k := i + 1;
    } else if |q| >= 2 && q[0] == "plugins" && q[1] != "bin" {
      k := 2;
    } else if i :| 1 <= i < |q| && q[0] == "vendor" && q[i] == "vendor" {
      assert q[..i + 1][i] == q[i];
      k := i + 1;
    } else {
      var i :| 0 <= i < |excludes| && StartsWith(q, excludes[i]);
      assert q[..|excludes[i]|] == excludes[i];
      k := |excludes[i]|;
    }
  }

  // ----------------------------------------------------------------- the copy

  /** `copy_directory`; `active` is the set of directories on the stack. */
  function CopyDirectory(c: Context, dir: Path, rel: Path, active: set<Path>): Result<Tree, CopyError>
    decreases c.files.Keys - active, 0, 0
  {
    if StartsWith(dir, c.buildOutput) then Ok(map[])
    else if dir in active then Err(Cycle(rel))
    else if dir !in c.files || !c.files[dir].Directory? then Err(Unreadable(rel))
    else
      assert dir in c.files.Keys - active;
      CopyNames(c, dir, c.files[dir].names, rel, active + {dir})
  }

  /** The loop over the entries of a directory; the first error ends it. */
  function CopyNames(c: Context, dir: Path, names: seq<string>, rel: Path, active: set<Path>): Result<Tree, CopyError>
    decreases c.files.Keys - active, 2, |names|
  {
    if names == [] then Ok(map[])
    else
      var init := CopyNames(c, dir, names[..|names| - 1], rel, active);
      if init.Err? then init
      else
        var last := CopyEntry(c, dir, names[|names| - 1], rel, active);
        if last.Err? then last else Ok(init.value + last.value)
  }

  function CopyEntry(c: Context, dir: Path, name: string, rel: Path, active: set<Path>): Result<Tree, CopyError>
    decreases c.files.Keys - active, 1, 0
  {
    var child, path := rel + [name], dir + [name];
    if Excluded(child, c.excludes) then Ok(map[])
    else if path !in c.files then Err(Unreadable(child))
    else match c.files[path]
      case Directory(_) =>
        if StartsWith(path, c.buildOutput) then Ok(map[])
        else WithFolder(child, CopyDirectory(c, path, child, active))
      case Regular(content) => Ok(map[child := Copied(content)])
      case Special => Err(Unsupported(child))
      case Link(target) => CopySymlink(c, target, child, active)
  }

  /** `copy_project_symlink`. */
  function CopySymlink(c: Context, link: Option<Path>, child: Path, active: set<Path>): Result<Tree, CopyError>
    decreases c.files.Keys - active, 0, 1
  {
    if link.None? then Err(Unresolved(child))
    else
      var target := link.value;
      if !StartsWith(target, c.projectRoot) && !StartsWith(child, ["vendor"]) then Err(Escapes(child))
      else if StartsWith(target, c.buildOutput) then Err(IntoOutput(child))
      else if target in c.files && c.files[target].Directory? then
        WithFolder(child, CopyDirectory(c, target, child, active))
      else if target in c.files && c.files[target].Regular? then Ok(map[child := Copied(c.files[target].content)])
      else Err(Unsupported(child))
  }

  function WithFolder(child: Path, r: Result<Tree, CopyError>): Result<Tree, CopyError> {
    if r.Err? then r else Ok(map[child := Folder] + r.value)
  }

  // ------------------------------------------------------------ the unfolding

  /** What a canonical path contributes; the build output contributes nothing. */
  function ItemAt(c: Context, p: Path): Option<Item> {
    if p !in c.files then None
    else match c.files[p]
      case Directory(_) => if StartsWith(p, c.buildOutput) then None else Some(Folder)
      case Regular(content) => Some(Copied(content))
      case _ => None
  }

  /** The canonical path behind an entry of a directory, links resolved. */
  function Enter(c: Context, dir: Path, name: string): Option<Path> {
    if ItemAt(c, dir) != Some(Folder) || name !in c.files[dir].names || dir + [name] !in c.files then None
    else if c.files[dir + [name]].Link? then c.files[dir + [name]].target
    else Some(dir + [name])
  }

  /** Where walking `s` from `dir` leads, through directories and links. */
  function Locate(c: Context, dir: Path, s: Path): Option<Path>
    decreases |s|
  {
    if s == [] then Some(dir)
    else
      var p := Enter(c, dir, s[0]);
      if p.None? then None else Locate(c, p.value, s[1..])
  }

  /** The tree that `dir` unfolds to when links are followed. */
  function Unfolding(c: Context, dir: Path, s: Path): Option<Item> {
    var p := Locate(c, dir, s);
    if p.None? then None else ItemAt(c, p.value)
  }

  /** The same walk, giving up at the first excluded path. */
  function Pruned(c: Context, dir: Path, rel: Path, s: Path): Option<Item>
    decreases |s|
  {
    if s == [] then ItemAt(c, dir)
    else if Excluded(rel + [s[0]], c.excludes) then None
    else
      var p := Enter(c, dir, s[0]);
      if p.None? then None else Pruned(c, p.value, rel + [s[0]], s[1..])
  }

  /** Pruning at excluded directories leaves exactly what filtering every path leaves. */
  lemma {:induction false} PruningIsFiltering(c: Context, dir: Path, rel: Path, s: Path)
    requires s != []
    ensures Pruned(c, dir, rel, s)
         == if Excluded(rel + s, c.excludes) then None else Unfolding(c, dir, s)
    decreases |s|
  {
    var child := rel + [s[0]];
    assert child <= rel + s;
    if Excluded(child, c.excludes) {
      ExclusionIsInherited(child, rel + s, c.excludes);
    } else {
      var p := Enter(c, dir, s[0]);
      assert child + s[1..] == rel + s;
      if |s| == 1 {
        assert s[1..] == [] && rel + s == child;
        assert p.Some? ==> Locate(c, p.value, []) == p && Pruned(c, p.value, child, []) == ItemAt(c, p.value);
      } else if p.Some? {
        PruningIsFiltering(c, p.value, child, s[1..]);
      }
    }
  }

  // ------------------------------------------------------------------- faults

  /** The error an entry gives rise to by itself, if any. */
  function EntryFault(c: Context, dir: Path, name: string, child: Path, active: set<Path>): Option<CopyError> {
    var path := dir + [name];
    if path !in c.files then Some(Unreadable(child))
    else match c.files[path]
      case Directory(_) =>
        if !StartsWith(path, c.buildOutput) && path in active then Some(Cycle(child)) else None
      case Regular(_) => None
      case Special => Some(Unsupported(child))
      case Link(None) => Some(Unresolved(child))
      case Link(Some(target)) =>
        if !StartsWith(target, c.projectRoot) && !StartsWith(child, ["vendor"]) then Some(Escapes(child))
        else if StartsWith(target, c.buildOutput) then Some(IntoOutput(child))
        else if target in c.files && c.files[target].Directory? then
          if target in active then Some(Cycle(child)) else None
        else if target in c.files && c.files[target].Regular? then None
        else Some(Unsupported(child))
  }

  /** The error at the end of an unexcluded walk that met none before. */
  function FaultAt(c: Context, dir: Path, rel: Path, active: set<Path>, s: Path): Option<CopyError>
    decreases |s|
  {
    if s == [] || ItemAt(c, dir) != Some(Folder) || s[0] !in c.files[dir].names
       || Excluded(rel + [s[0]], c.excludes) then None
    else
      var fault := EntryFault(c, dir, s[0], rel + [s[0]], active);
      if |s| == 1 then fault
      else if fault.Some? then None
      else
        var p := Enter(c, dir, s[0]);
        if p.None? then None else FaultAt(c, p.value, rel + [s[0]], active + {p.value}, s[1..])
  }

  /** What the tree has at a path. */
  function At(t: Tree, q: Path): Option<Item> {
    if q in t then Some(t[q]) else None
  }

  /** What the pruned walk along `q` leads to, when it enters the directory `rel` by one of `names`. */
  function Walked(c: Context, dir: Path, rel: Path, names: seq<string>, q: Path): Option<Item> {
    if |q| > |rel| && rel <= q && q[|rel|] in names then Pruned(c, dir, rel, q[|rel|..]) else None
  }

  /** The tree holds what the pruned walks through `names` lead to, and nothing else. */
  ghost predicate Describes(c: Context, dir: Path, rel: Path, names: seq<string>, t: Tree) {
    forall q: Path :: At(t, q) == Walked(c, dir, rel, names, q)
  }

  ghost predicate FaultFree(c: Context, dir: Path, rel: Path, active: set<Path>, names: seq<string>) {
    forall s: Path | s != [] && s[0] in names :: FaultAt(c, dir, rel, active, s) == None
  }

  /** What a result means: a complete tree and no fault anywhere, or a fault that is really there. */
  ghost predicate Means(c: Context, dir: Path, rel: Path, active: set<Path>, names: seq<string>,
                        r: Result<Tree, CopyError>, s: Path) {
    && (r.Ok? ==> Describes(c, dir, rel, names, r.value) && FaultFree(c, dir, rel, active, names))
    && (r.Err? ==> s != [] && s[0] in names && FaultAt(c, dir, rel, active, s) == Some(r.error))
  }

  lemma {:induction false} NamesMean(c: Context, dir: Path, names: seq<string>, rel: Path, active: set<Path>)
    returns (s: Path)
    requires ItemAt(c, dir) == Some(Folder) && forall n | n in names :: n in c.files[dir].names
    ensures Means(c, dir, rel, active, names, CopyNames(c, dir, names, rel, active), s)
    decreases c.files.Keys - active, 2, |names|
  {
    if names == [] {
      return [];
    }
    var init, last := names[..|names| - 1], names[|names| - 1];
    assert names == init + [last];
    s := NamesMean(c, dir, init, rel, active);
    if CopyNames(c, dir, init, rel, active).Ok? {
      s := EntryMeans(c, dir, last, rel, active);
      if CopyEntry(c, dir, last, rel, active).Ok? {
        TogetherDescribe(c, dir, rel, init, CopyNames(c, dir, init, rel, active).value,
                         last, CopyEntry(c, dir, last, rel, active).value);
      }
    }
  }

  lemma TogetherDescribe(c: Context, dir: Path, rel: Path, init: seq<string>, a: Tree, last: string, b: Tree)
    requires Describes(c, dir, rel, init, a) && Describes(c, dir, rel, [last], b)
    ensures Describes(c, dir, rel, init + [last], a + b)
  {
    forall q: Path
      ensures At(a + b, q) == Walked(c, dir, rel, init + [last], q)
    {
      assert At(a, q) == Walked(c, dir, rel, init, q);
      assert At(b, q) == Walked(c, dir, rel, [last], q);
    }
  }

  /** The walks through one entry, from the walks through the directory behind it. */
  lemma {:induction false} EntryMeans(c: Context, dir: Path, name: string, rel: Path, active: set<Path>)
    returns (s: Path)
    requires ItemAt(c, dir) == Some(Folder) && name in c.files[dir].names
    ensures Means(c, dir, rel, active, [name], CopyEntry(c, dir, name, rel, active), s)
    decreases c.files.Keys - active, 1, 0
  {
    var child := rel + [name];
    s := [name];
    if !Excluded(child, c.excludes) && EntryFault(c, dir, name, child, active).None? {
      var p := Enter(c, dir, name).value;
      if ItemAt(c, p) == Some(Folder) {
        var inner := NamesMean(c, p, c.files[p].names, child, active + {p});
        s := [name] + inner;
        FolderEntryMeans(c, dir, name, rel, active, p, inner);
      } else {
        LeafEntryMeans(c, dir, name, rel, active);
      }
    } else if Excluded(child, c.excludes) {
      ExcludedEntryMeans(c, dir, name, rel, active);
    } else {
      FaultyEntryMeans(c, dir, name, rel, active);
    }
  }

  lemma ExcludedEntryMeans(c: Context, dir: Path, name: string, rel: Path, active: set<Path>)
    requires Excluded(rel + [name], c.excludes)
    ensures Means(c, dir, rel, active, [name], CopyEntry(c, dir, name, rel, active), [name])
  {
    var t: Tree := map[];
    assert CopyEntry(c, dir, name, rel, active) == Ok(t);
    forall q: Path
      ensures At(t, q) == Walked(c, dir, rel, [name], q)
    {
      assert |q| > |rel| ==> q[|rel|..][0] == q[|rel|];
    }
    forall s: Path | s != [] && s[0] in [name]
      ensures FaultAt(c, dir, rel, active, s) == None
    {
    }
  }

  lemma FaultyCopy(c: Context, dir: Path, name: string, rel: Path, active: set<Path>)
    requires !Excluded(rel + [name], c.excludes)
    requires EntryFault(c, dir, name, rel + [name], active).Some?
    ensures CopyEntry(c, dir, name, rel, active) == Err(EntryFault(c, dir, name, rel + [name], active).value)
  {
    var path, child := dir + [name], rel + [name];
    if path in c.files && c.files[path].Link? {
      assert CopyEntry(c, dir, name, rel, active) == CopySymlink(c, c.files[path].target, child, active);
    }
  }

  lemma FaultyEntryMeans(c: Context, dir: Path, name: string, rel: Path, active: set<Path>)
    requires ItemAt(c, dir) == Some(Folder) && name in c.files[dir].names
    requires !Excluded(rel + [name], c.excludes)
    requires EntryFault(c, dir, name, rel + [name], active).Some?
    ensures Means(c, dir, rel, active, [name], CopyEntry(c, dir, name, rel, active), [name])
  {
    FaultyCopy(c, dir, name, rel, active);
    assert FaultAt(c, dir, rel, active, [name]) == EntryFault(c, dir, name, rel + [name], active);
  }

  lemma LeafEntryLookup(c: Context, dir: Path, name: string, rel: Path, p: Path, q: Path)
    requires ItemAt(c, dir) == Some(Folder) && name in c.files[dir].names
    requires !Excluded(rel + [name], c.excludes)
    requires Enter(c, dir, name) == Some(p) && ItemAt(c, p) != Some(Folder)
    requires rel + [name] <= q && rel <= q
    ensures Pruned(c, dir, rel, q[|rel|..]) == if q == rel + [name] then ItemAt(c, p) else None
  {
    var s := q[|rel|..];
    assert Pruned(c, dir, rel, s) == Pruned(c, p, rel + [name], s[1..]);
    if |s| > 1 && !Excluded(rel + [name] + [s[1]], c.excludes) {
      assert Enter(c, p, s[1]).None?;
    }
  }

  lemma LeafCopy(c: Context, dir: Path, name: string, rel: Path, active: set<Path>, p: Path)
    requires ItemAt(c, dir) == Some(Folder)
    requires !Excluded(rel + [name], c.excludes) && EntryFault(c, dir, name, rel + [name], active).None?
    requires Enter(c, dir, name) == Some(p) && ItemAt(c, p) != Some(Folder)
    ensures CopyEntry(c, dir, name, rel, active)
         == Ok(if ItemAt(c, p).Some? then map[rel + [name] := ItemAt(c, p).value] else map[])
  {
  }

  /** An entry that is no directory, or a directory of the build output, stands for itself only. */
  lemma LeafEntryMeans(c: Context, dir: Path, name: string, rel: Path, active: set<Path>)
    requires ItemAt(c, dir) == Some(Folder) && name in c.files[dir].names
    requires !Excluded(rel + [name], c.excludes) && EntryFault(c, dir, name, rel + [name], active).None?
    requires Enter(c, dir, name).Some? && ItemAt(c, Enter(c, dir, name).value) != Some(Folder)
    ensures Means(c, dir, rel, active, [name], CopyEntry(c, dir, name, rel, active), [name])
  {
    var child, p := rel + [name], Enter(c, dir, name).value;
    var t: Tree := if ItemAt(c, p).Some? then map[child := ItemAt(c, p).value] else map[];
    LeafCopy(c, dir, name, rel, active, p);
    forall q: Path
      ensures At(t, q) == Walked(c, dir, rel, [name], q)
    {
      if |q| > |rel| && rel <= q && q[|rel|] == name {
        LeafEntryLookup(c, dir, name, rel, p, q);
      } else {
        assert q != child;
      }
    }
    LeafIsFaultFree(c, dir, name, rel, active, p);
  }

  lemma LeafIsFaultFree(c: Context, dir: Path, name: string, rel: Path, active: set<Path>, p: Path)
    requires EntryFault(c, dir, name, rel + [name], active).None?
    requires Enter(c, dir, name) == Some(p) && ItemAt(c, p) != Some(Folder)
    ensures FaultFree(c, dir, rel, active, [name])
  {
    forall s: Path | s != [] && s[0] in [name]
      ensures FaultAt(c, dir, rel, active, s) == None
    {
      assert FaultAt(c, p, rel + [name], active + {p}, s[1..]) == None;
    }
  }

  lemma FolderEntryMeans(c: Context, dir: Path, name: string, rel: Path, active: set<Path>, p: Path, inner: Path)
    requires ItemAt(c, dir) == Some(Folder) && name in c.files[dir].names
    requires !Excluded(rel + [name], c.excludes) && EntryFault(c, dir, name, rel + [name], active).None?
    requires Enter(c, dir, name) == Some(p) && ItemAt(c, p) == Some(Folder)
    requires Means(c, p, rel + [name], active + {p}, c.files[p].names,
                   CopyNames(c, p, c.files[p].names, rel + [name], active + {p}), inner)
    ensures Means(c, dir, rel, active, [name], CopyEntry(c, dir, name, rel, active), [name] + inner)
  {
    var child := rel + [name];
    var r := CopyNames(c, p, c.files[p].names, child, active + {p});
    assert CopyDirectory(c, p, child, active) == r;
    assert CopyEntry(c, dir, name, rel, active) == WithFolder(child, r);
    if r.Err? {
      assert ([name] + inner)[1..] == inner;
    } else {
      forall q: Path
        ensures At(map[child := Folder] + r.value, q) == Walked(c, dir, rel, [name], q)
      {
        FolderEntryLookup(c, dir, name, rel, p, r.value, q);
      }
      forall s: Path | s != [] && s[0] in [name]
        ensures FaultAt(c, dir, rel, active, s) == None
      {
        if |s| > 1 && s[1] !in c.files[p].names {
          assert FaultAt(c, p, child, active + {p}, s[1..]) == None;
        }
      }
    }
  }

  lemma FolderEntryLookup(c: Context, dir: Path, name: string, rel: Path, p: Path, inside: Tree, q: Path)
    requires ItemAt(c, dir) == Some(Folder) && name in c.files[dir].names
    requires !Excluded(rel + [name], c.excludes)
    requires Enter(c, dir, name) == Some(p) && ItemAt(c, p) == Some(Folder)
    requires Describes(c, p, rel + [name], c.files[p].names, inside)
    ensures At(map[rel + [name] := Folder] + inside, q) == Walked(c, dir, rel, [name], q)
  {
    if rel + [name] <= q {
      BelowFolder(c, p, rel + [name], inside, q);
      WalkIntoFolder(c, dir, name, rel, p, q);
    } else {
      assert At(inside, q) == Walked(c, p, rel + [name], c.files[p].names, q);
      NotBelow(c, dir, name, rel, q);
    }
  }

  /** The walk along `q` enters the directory by `name` and goes on from there. */
  lemma WalkIntoFolder(c: Context, dir: Path, name: string, rel: Path, p: Path, q: Path)
    requires !Excluded(rel + [name], c.excludes) && Enter(c, dir, name) == Some(p)
    requires rel + [name] <= q
    ensures Walked(c, dir, rel, [name], q) == Pruned(c, p, rel + [name], q[|rel| + 1..])
  {
    var s := q[|rel|..];
    assert rel <= q && q[|rel|] == (rel + [name])[|rel|];
    assert s[0] == name && s[1..] == q[|rel| + 1..];
  }

  lemma NotBelow(c: Context, dir: Path, name: string, rel: Path, q: Path)
    requires !(rel + [name] <= q)
    ensures Walked(c, dir, rel, [name], q) == None
  {
  }

  lemma BelowFolder(c: Context, p: Path, child: Path, inside: Tree, q: Path)
    requires ItemAt(c, p) == Some(Folder) && child <= q
    requires Describes(c, p, child, c.files[p].names, inside)
    ensures At(map[child := Folder] + inside, q) == Pruned(c, p, child, q[|child|..])
  {
    var s := q[|child|..];
    assert At(inside, q) == Walked(c, p, child, c.files[p].names, q);
    if s == [] {
      assert q == child;
    } else if s[0] !in c.files[p].names && !Excluded(child + [s[0]], c.excludes) {
      assert Enter(c, p, s[0]).None?;
    }
  }

  // -------------------------------------------------------------- main results

  /** `copy_project`: the whole project, from an empty stack. */
  function CopyProject(c: Context, root: Path): Result<Tree, CopyError> {
    CopyDirectory(c, root, [], {})
  }

  /** The fault at the end of a walk from the root. */
  function Fault(c: Context, root: Path, s: Path): Option<CopyError> {
    FaultAt(c, root, [], {root}, s)
  }

  /**
   A copy succeeds exactly when no unexcluded walk ends in a fault, and then it is the
   whole unfolding of the project with the excluded paths filtered out.
   */
  lemma CopyIsFilteredUnfolding(c: Context, root: Path)
    requires ItemAt(c, root) == Some(Folder)
    ensures CopyProject(c, root).Ok? <==> forall s: Path :: Fault(c, root, s) == None
    ensures CopyProject(c, root).Ok? ==>
              forall q: Path | q != [] ::
                At(CopyProject(c, root).value, q) == if Excluded(q, c.excludes) then None else Unfolding(c, root, q)
    ensures CopyProject(c, root).Err? ==> exists s: Path :: Fault(c, root, s) == Some(CopyProject(c, root).error)
  {
    var names := c.files[root].names;
    assert {} + {root} == {root};
    var walk := NamesMean(c, root, names, [], {root});
    if CopyProject(c, root).Ok? {
      var t := CopyProject(c, root).value;
      forall s: Path
        ensures Fault(c, root, s) == None
      {
        if s != [] && s[0] !in names {
          assert Fault(c, root, s) == None;
        }
      }
      forall q: Path | q != []
        ensures At(t, q) == if Excluded(q, c.excludes) then None else Unfolding(c, root, q)
      {
        PruningIsFiltering(c, root, [], q);
        assert At(t, q) == Walked(c, root, [], names, q);
        assert [] + q == q && q[0..] == q && [] <= q;
        if q[0] !in names {
          assert Enter(c, root, q[0]).None?;
        }
      }
    } else {
      assert Fault(c, root, walk) == Some(CopyProject(c, root).error);
    }
  }

  /**
   What a bundle holds: exactly the items of the project's unfolding of which neither the
   path nor any path above it is barred.
   */
  lemma BundleHoldsExactly(c: Context, root: Path, q: Path)
    requires ItemAt(c, root) == Some(Folder) && CopyProject(c, root).Ok? && q != []
    ensures At(CopyProject(c, root).value, q)
         == if exists k | 0 <= k <= |q| :: Barred(q[..k], c.excludes) then None else Unfolding(c, root, q)
  {
    CopyIsFilteredUnfolding(c, root);
    ExcludedExactly(q, c.excludes);
  }

  lemma NotReserved(name: string)
    requires name != "" && name[0] !in {'.', 'd', 'n', 't'}
    ensures !Reserved(name)
  {
    assert ".git"[0] == '.' && ".pam"[0] == '.' && ".pamignore"[0] == '.' && ".env"[0] == '.';
    assert "dist"[0] == 'd' && "node_modules"[0] == 'n' && "target"[0] == 't';
    assert ".env."[0] == '.' && (|name| >= 5 ==> name[..5][0] == name[0]);
  }

  /** Plugin binaries are shipped, and with them everything below that nothing else bars. */
  lemma PluginBinariesAreShipped(c: Context, root: Path, below: Path)
    requires ItemAt(c, root) == Some(Folder) && CopyProject(c, root).Ok?
    requires forall i | 0 <= i < |below| :: !Reserved(below[i])
    requires forall i | 0 <= i < |c.excludes| :: !StartsWith(["plugins", "bin"] + below, c.excludes[i])
    ensures At(CopyProject(c, root).value, ["plugins", "bin"] + below) == Unfolding(c, root, ["plugins", "bin"] + below)
  {
    var q := ["plugins", "bin"] + below;
    forall k | 0 <= k <= |q|
      ensures !Barred(q[..k], c.excludes)
    {
      if k > 2 {
        assert q[..k][k - 1] == below[k - 3];
      }
      assert k >= 1 ==> q[..k][0] == "plugins";
      assert k >= 2 ==> q[..k][1] == "bin";
      assert "plugins"[0] == 'p' && "bin"[0] == 'b';
      NotReserved("plugins");
      NotReserved("bin");
      assert StartsWith(q, q[..k]);
    }
    BundleHoldsExactly(c, root, q);
  }

  /** Plugin sources never are. */
  lemma PluginSourcesStayOut(c: Context, root: Path, plugin: string, below: Path)
    requires ItemAt(c, root) == Some(Folder) && CopyProject(c, root).Ok? && plugin != "bin"
    ensures ["plugins", plugin] + below !in CopyProject(c, root).value
  {
    var q := ["plugins", plugin] + below;
    assert q[..2] == ["plugins", plugin];
    BundleHoldsExactly(c, root, q);
  }

  /** The walk comes back to a directory it is already inside. */
  ghost predicate ReEnters(c: Context, root: Path, s: Path) {
    && Unfolding(c, root, s) == Some(Folder)
    && exists k | 0 <= k < |s| :: Locate(c, root, s[..k]) == Locate(c, root, s)
  }

  lemma {:induction false} LocateStep(c: Context, dir: Path, s: Path, k: nat)
    requires s != [] && Enter(c, dir, s[0]).Some? && 1 <= k <= |s|
    ensures Locate(c, dir, s[..k]) == Locate(c, Enter(c, dir, s[0]).value, s[1..][..k - 1])
  {
    assert s[..k][1..] == s[1..][..k - 1] && s[..k][0] == s[0];
  }

  /** A cycle fault lies where an unexcluded walk meets a directory of its stack. */
  lemma {:induction false} CycleFaultMeans(c: Context, dir: Path, rel: Path, active: set<Path>, s: Path)
    returns (k: nat)
    requires FaultAt(c, dir, rel, active, s).Some? && FaultAt(c, dir, rel, active, s).value.Cycle?
    ensures FaultAt(c, dir, rel, active, s).value.at == rel + s
    ensures s != [] && !Excluded(rel + s, c.excludes)
    ensures Unfolding(c, dir, s) == Some(Folder) && Locate(c, dir, s).Some?
    ensures Locate(c, dir, s).value in active || (1 <= k < |s| && Locate(c, dir, s[..k]) == Locate(c, dir, s))
    decreases |s|
  {
    var p := Enter(c, dir, s[0]);
    if |s| == 1 {
      assert s[1..] == [] && rel + s == rel + [s[0]];
      assert Locate(c, dir, s) == Locate(c, p.value, []) == p;
      k := 0;
    } else {
      k := CycleFaultMeans(c, p.value, rel + [s[0]], active + {p.value}, s[1..]);
      assert rel + [s[0]] + s[1..] == rel + s;
      if Locate(c, dir, s).value == p.value {
        k := 1;
        LocateStep(c, dir, s, 1);
      } else if Locate(c, dir, s).value !in active {
        LocateStep(c, dir, s, k + 1);
        k := k + 1;
      }
    }
  }

  /** An unexcluded walk into a directory of its stack meets a fault somewhere on the way. */
  lemma {:induction false} ReEntryMeetsFault(c: Context, dir: Path, rel: Path, active: set<Path>, s: Path, k: nat)
    returns (j: nat)
    requires s != [] && !Excluded(rel + s, c.excludes) && Unfolding(c, dir, s) == Some(Folder)
    requires dir in active && k < |s|
    requires Locate(c, dir, s).value in active || Locate(c, dir, s[..k]) == Locate(c, dir, s)
    ensures 1 <= j <= |s| && FaultAt(c, dir, rel, active, s[..j]).Some?
    decreases |s|
  {
    var child := rel + [s[0]];
    if Excluded(child, c.excludes) {
      ExclusionIsInherited(child, rel + s, c.excludes);
    }
    var p := Enter(c, dir, s[0]).value;
    assert s[..1] == [s[0]];
    assert s[..0] == [] && s[..|s|] == s;
    if EntryFault(c, dir, s[0], child, active).Some? {
      j := 1;
    } else if |s| == 1 {
      assert false;
    } else {
      assert child + s[1..] == rel + s;
      if k >= 1 {
        LocateStep(c, dir, s, k);
      }
      var j' := ReEntryMeetsFault(c, p, child, active + {p}, s[1..], if k >= 1 then k - 1 else 0);
      j := j' + 1;
      assert s[..j][1..] == s[1..][..j'] && s[..j][0] == s[0];
    }
  }

  /** A reported cycle is real: the reported path is not excluded and re-enters a directory above it. */
  lemma ReportedCycleIsReal(c: Context, root: Path)
    requires ItemAt(c, root) == Some(Folder)
    requires CopyProject(c, root).Err? && CopyProject(c, root).error.Cycle?
    ensures var at := CopyProject(c, root).error.at;
            !Excluded(at, c.excludes) && ReEnters(c, root, at)
  {
    CopyIsFilteredUnfolding(c, root);
    var s :| Fault(c, root, s) == Some(CopyProject(c, root).error);
    var k := CycleFaultMeans(c, root, [], {root}, s);
    assert [] + s == s && s[..0] == [];
    assert Locate(c, root, s[..0]) == Some(root);
  }

  /** A project in which some unexcluded path re-enters a directory above it is never copied. */
  lemma ReEntryIsRefused(c: Context, root: Path, s: Path)
    requires ItemAt(c, root) == Some(Folder)
    requires s != [] && !Excluded(s, c.excludes) && ReEnters(c, root, s)
    ensures CopyProject(c, root).Err?
  {
    CopyIsFilteredUnfolding(c, root);
    var k :| 0 <= k < |s| && Locate(c, root, s[..k]) == Locate(c, root, s);
    assert [] + s == s;
    var j := ReEntryMeetsFault(c, root, [], {root}, s, k);
    assert Fault(c, root, s[..j]).Some?;
  }

  /** With no fault of another kind, the copy fails with a cycle exactly when a path re-enters. */
  lemma FailsWithCycleExactly(c: Context, root: Path)
    requires ItemAt(c, root) == Some(Folder)
    requires forall s: Path | Fault(c, root, s).Some? :: Fault(c, root, s).value.Cycle?
    ensures CopyProject(c, root).Err? && CopyProject(c, root).error.Cycle? <==>
            exists s: Path :: s != [] && !Excluded(s, c.excludes) && ReEnters(c, root, s)
  {
    CopyIsFilteredUnfolding(c, root);
    if CopyProject(c, root).Err? {
      var w :| Fault(c, root, w) == Some(CopyProject(c, root).error);
      ReportedCycleIsReal(c, root);
      var at := CopyProject(c, root).error.at;
      assert at != [];
    }
    if s: Path :| s != [] && !Excluded(s, c.excludes) && ReEnters(c, root, s) {
      ReEntryIsRefused(c, root, s);
    }
  }

  // ------------------------------------------------------------------ the code

  /** The copier with the stack it threads through the recursion and the tree it writes. */
  class Copier {
    const context: Context
    var active: set<Path>
    var tree: Tree

    constructor (context: Context)
      ensures this.context == context && active == {} && tree == map[]
    {
      this.context, this.active, this.tree := context, {}, map[];
    }

    /**
     `copy_directory`: the stack is as before on success and on error, and a success adds
     exactly the copied paths to the tree.
     */
    method Directory(source: Path, rel: Path) returns (error: Option<CopyError>)
      modifies this`active, this`tree
      ensures active == old(active)
      ensures var r := CopyDirectory(context, source, rel, old(active));
              if r.Ok? then error == None && tree == old(tree) + r.value else error == Some(r.error)
      decreases context.files.Keys - active, 0, 0
    {
      if StartsWith(source, context.buildOutput) {
        return None;
      }
      if source in active {
        return Some(Cycle(rel));
      }
      ghost var before := active;
      active := active + {source};
      if source !in context.files || !context.files[source].Directory? {
        error := Some(Unreadable(rel));
      } else {
        assert source in context.files.Keys - before;
        error := Entries(source, context.files[source].names, rel);
      }
      active := active - {source};
      assert active == before;
    }

    /** The loop over the entries of a directory, which ends at the first error. */
    method Entries(source: Path, names: seq<string>, rel: Path) returns (error: Option<CopyError>)
      modifies this`active, this`tree
      ensures active == old(active)
      ensures var r := CopyNames(context, source, names, rel, active);
              if r.Ok? then error == None && tree == old(tree) + r.value else error == Some(r.error)
      decreases context.files.Keys - active, 2, 0
    {
      for i := 0 to |names|
        invariant active == old(active)
        invariant var r := CopyNames(context, source, names[..i], rel, active);
                  r.Ok? && tree == old(tree) + r.value
      {
        CopyOneMore(context, source, names, rel, active, i);
        error := Entry(source, names[i], rel);
        if error.Some? {
          FirstErrorWins(context, source, names, rel, active, i + 1);
          return;
        }
      }
      assert names[..|names|] == names;
      return None;
    }

    /** The body of the loop. */
    method Entry(source: Path, name: string, rel: Path) returns (error: Option<CopyError>)
      modifies this`active, this`tree
      ensures active == old(active)
      ensures var r := CopyEntry(context, source, name, rel, old(active));
              if r.Ok? then error == None && tree == old(tree) + r.value else error == Some(r.error)
      decreases context.files.Keys - active, 1, 0
    {
      var child, path := rel + [name], source + [name];
      if Excluded(child, context.excludes) {
        return None;
      }
      if path !in context.files {
        return Some(Unreadable(child));
      }
      match context.files[path]
      case Directory(_) =>
        if StartsWith(path, context.buildOutput) {
          return None;
        }
        tree := tree[child := Folder];
        error := Directory(path, child);
      case Regular(content) =>
        tree := tree[child := Copied(content)];
        return None;
      case Special =>
        return Some(Unsupported(child));
      case Link(target) =>
        error := Symlink(target, child);
    }

    /** `copy_project_symlink`. */
    method Symlink(link: Option<Path>, child: Path) returns (error: Option<CopyError>)
      modifies this`active, this`tree
      ensures active == old(active)
      ensures var r := CopySymlink(context, link, child, old(active));
              if r.Ok? then error == None && tree == old(tree) + r.value else error == Some(r.error)
      decreases context.files.Keys - active, 0, 1
    {
      if link.None? {
        return Some(Unresolved(child));
      }
      var target := link.value;
      if !StartsWith(target, context.projectRoot) && !StartsWith(child, ["vendor"]) {
        return Some(Escapes(child));
      }
      if StartsWith(target, context.buildOutput) {
        return Some(IntoOutput(child));
      }
      if target in context.files && context.files[target].Directory? {
        tree := tree[child := Folder];
        error := Directory(target, child);
      } else if target in context.files && context.files[target].Regular? {
        tree := tree[child := Copied(context.files[target].content)];
        return None;
      } else {
        return Some(Unsupported(child));
      }
    }
  }

  lemma CopyOneMore(c: Context, dir: Path, names: seq<string>, rel: Path, active: set<Path>, i: nat)
    requires i < |names| && CopyNames(c, dir, names[..i], rel, active).Ok?
    ensures var entry, next := CopyEntry(c, dir, names[i], rel, active), CopyNames(c, dir, names[..i + 1], rel, active);
            if entry.Err? then next == entry
            else next == Ok(CopyNames(c, dir, names[..i], rel, active).value + entry.value)
  {
    assert names[..i + 1][..i] == names[..i];
  }

  lemma {:induction false} FirstErrorWins(c: Context, dir: Path, names: seq<string>, rel: Path, active: set<Path>, i: nat)
    requires i <= |names| && CopyNames(c, dir, names[..i], rel, active).Err?
    ensures CopyNames(c, dir, names, rel, active) == CopyNames(c, dir, names[..i], rel, active)
    decreases |names|
  {
    if i < |names| {
      assert names[..|names| - 1][..i] == names[..i];
      FirstErrorWins(c, dir, names[..|names| - 1], rel, active, i);
    } else {
      assert names[..i] == names;
    }
  }
}
