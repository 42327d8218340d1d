/**
 The byte stream that is hashed to recognise an unchanged project, and the startup
 snapshot keyed by it (startup_snapshot.rs).

 A path relative to the project is the sequence of its names, and a name is any sequence of
 bytes that a file system allows. What is hashed is the text of the path, after the lossy
 conversion to UTF-8. The hash itself is not modelled.
 */
module ProjectFingerprint {
  import opened Outcomes
  import opened Sequences
  import opened Sorting
  import opened Utf8

  type RelativePath = seq<Bytes>

  const SEPARATOR: Byte := 47
  const MAX_LENGTH: nat := 0xFFFF_FFFF_FFFF_FFFF

  /** "pam-desktop-startup-snapshot-v1" and a zero byte. */
  const HEADER: Bytes :=
    [112, 97, 109, 45, 100, 101, 115, 107, 116, 111, 112, 45, 115, 116, 97, 114, 116, 117, 112,
     45, 115, 110, 97, 112, 115, 104, 111, 116, 45, 118, 49, 0]

  /** A file name: not empty, without zero bytes and separators. */
  predicate ValidName(name: Bytes) {
    name != [] && 0 !in name && SEPARATOR !in name
  }

  predicate ValidPath(p: RelativePath) {
    p != [] && forall i | 0 <= i < |p| :: ValidName(p[i])
  }

  function Join(p: RelativePath): Bytes {
    if p == [] then [] else if |p| == 1 then p[0] else p[0] + [SEPARATOR] + Join(p[1..])
  }

  /** `k` bytes of `n`, the lowest first. */
  function LittleEndian(n: nat, k: nat): (bytes: Bytes)
    ensures |bytes| == k
  {
    if k == 0 then [] else [n % 256] + LittleEndian(n / 256, k - 1)
  }

  /** The text of a path: `to_string_lossy` on its bytes. */
  function Text(p: RelativePath): Bytes {
    Lossy(Join(p))
  }

  /** What is hashed of one file: its path as text, and its contents. */
  datatype Input = Input(text: Bytes, contents: Bytes)

  predicate ValidInput(input: Input) {
    0 !in input.text && |input.contents| <= MAX_LENGTH
  }

  function Record(input: Input): Bytes {
    input.text + [0] + LittleEndian(|input.contents|, 8) + input.contents
  }

  function Stream(inputs: seq<Input>): Bytes {
    if inputs == [] then [] else Stream(inputs[..|inputs| - 1]) + Record(inputs[|inputs| - 1])
  }

  /** What a project is to the fingerprint: its input paths and what they hold. */
  datatype Project = Project(paths: seq<RelativePath>, contents: map<RelativePath, Bytes>)

  ghost predicate ValidProject(p: Project) {
    forall i | 0 <= i < |p.paths| ::
      ValidPath(p.paths[i]) && p.paths[i] in p.contents && |p.contents[p.paths[i]]| <= MAX_LENGTH
  }

  /** Every path of the project is UTF-8. */
  ghost predicate Utf8Paths(p: Project) {
    forall i | 0 <= i < |p.paths| :: WellFormed(Join(p.paths[i]))
  }

  // ------------------------------------------------------------ path order

  predicate ByteLeq(a: Byte, b: Byte) {
    a <= b
  }

  /** The order of paths: name by name, names byte by byte. */
  function PathLeq(): (RelativePath, RelativePath) -> bool {
    Lexicographic(Lexicographic((a: Byte, b: Byte) => ByteLeq(a, b)))
  }

  lemma PathLeqIsTotalOrder()
    ensures TotalOrder(PathLeq())
  {
    LexicographicIsTotalOrder((a: Byte, b: Byte) => ByteLeq(a, b));
    LexicographicIsTotalOrder(Lexicographic((a: Byte, b: Byte) => ByteLeq(a, b)));
  }

  function SortedPaths(p: Project): seq<RelativePath> {
    Sort(p.paths, PathLeq())
  }

  lemma SortedPathsValid(p: Project)
    requires ValidProject(p)
    ensures multiset(SortedPaths(p)) == multiset(p.paths)
    ensures ValidProject(Project(SortedPaths(p), p.contents))
  {
    PathLeqIsTotalOrder();
    SortSorts(p.paths, PathLeq());
    var sorted := SortedPaths(p);
    forall i | 0 <= i < |sorted|
      ensures ValidPath(sorted[i]) && sorted[i] in p.contents && |p.contents[sorted[i]]| <= MAX_LENGTH
    {
      assert sorted[i] in multiset(p.paths);
      assert sorted[i] in p.paths;
    }
  }

  /** The inputs in the order in which they are hashed. */
  function Inputs(p: Project): seq<Input>
    requires ValidProject(p)
  {
    SortedPathsValid(p);
    var sorted := SortedPaths(p);
    seq(|sorted|, i requires 0 <= i < |sorted| => Input(Text(sorted[i]), p.contents[sorted[i]]))
  }

  /** All that is hashed for a project. */
  function Hashed(p: Project): Bytes
    requires ValidProject(p)
  {
    HEADER + Stream(Inputs(p))
  }

  // -------------------------------------------------------------- injectivity

  /** A mark ends a text that does not hold it, so what follows the mark is determined. */
  lemma SplitAt(mark: Byte, a: Bytes, x: Bytes, b: Bytes, y: Bytes)
    requires mark !in a && mark !in b && a + [mark] + x == b + [mark] + y
    ensures a == b && x == y
  {
    var s := a + [mark] + x;
    assert s[|a|] == mark && s[|b|] == mark;
    assert |a| == |b|;
    assert a == s[..|a|] && b == s[..|b|];
    assert x == s[|a| + 1..] && y == s[|b| + 1..];
  }

  /** The number that such bytes stand for. */
  function FromLittleEndian(bytes: Bytes): nat {
    if bytes == [] then 0 else bytes[0] + 256 * FromLittleEndian(bytes[1..])
  }

  lemma {:induction false} LittleEndianReadsBack(n: nat, k: nat)
    requires n < Power256(k)
    ensures FromLittleEndian(LittleEndian(n, k)) == n
    decreases k
  {
    if k > 0 {
      LittleEndianReadsBack(n / 256, k - 1);
      assert LittleEndian(n, k)[1..] == LittleEndian(n / 256, k - 1);
    }
  }

  function Power256(k: nat): nat {
    if k == 0 then 1 else 256 * Power256(k - 1)
  }

  lemma EightBytesHoldLengths()
    ensures Power256(8) == MAX_LENGTH + 1
  {
    assert Power256(2) == 0x1_0000 && Power256(4) == 0x1_0000_0000;
    assert Power256(6) == 0x1_0000_0000_0000;
  }

  lemma {:induction false} JoinHasNoZero(p: RelativePath)
    requires ValidPath(p)
    ensures 0 !in Join(p)
  {
    assert ValidName(p[0]);
    if |p| > 1 {
      JoinHasNoZero(p[1..]);
    }
  }

  /** A path is determined by its text: no name is empty or holds the separator. */
  lemma {:induction false} JoinInjective(p: RelativePath, q: RelativePath)
    requires ValidPath(p) && ValidPath(q) && Join(p) == Join(q)
    ensures p == q
  {
    assert ValidName(p[0]) && ValidName(q[0]);
    assert |p| > 1 ==> Join(p)[|p[0]|] == SEPARATOR;
    assert |q| > 1 ==> Join(q)[|q[0]|] == SEPARATOR;
    assert |p| == 1 <==> SEPARATOR !in Join(p);
    assert |q| == 1 <==> SEPARATOR !in Join(q);
    if |p| == 1 {
      assert p == [p[0]] && q == [q[0]];
    } else {
      SplitAt(SEPARATOR, p[0], Join(p[1..]), q[0], Join(q[1..]));
      JoinInjective(p[1..], q[1..]);
      assert p == [p[0]] + p[1..] && q == [q[0]] + q[1..];
    }
  }

  /** A record at the front of two equal streams is the same record, and so is the rest. */
  lemma RecordInjective(a: Input, x: Bytes, b: Input, y: Bytes)
    requires ValidInput(a) && ValidInput(b) && Record(a) + x == Record(b) + y
    ensures a == b && x == y
  {
    var afterA := LittleEndian(|a.contents|, 8) + (a.contents + x);
    var afterB := LittleEndian(|b.contents|, 8) + (b.contents + y);
    RecordShape(a, x);
    RecordShape(b, y);
    SplitAt(0, a.text, afterA, b.text, afterB);
    CountedInjective(a.contents, x, b.contents, y);
  }

  lemma RecordShape(a: Input, x: Bytes)
    ensures Record(a) + x == a.text + [0] + (LittleEndian(|a.contents|, 8) + (a.contents + x))
  {
    Associates(a.text + [0] + LittleEndian(|a.contents|, 8), a.contents, x);
    Associates(a.text + [0], LittleEndian(|a.contents|, 8), a.contents + x);
  }

  /** Contents with their length in front are determined, whatever follows. */
  lemma CountedInjective(a: Bytes, x: Bytes, b: Bytes, y: Bytes)
    requires |a| <= MAX_LENGTH && |b| <= MAX_LENGTH
    requires LittleEndian(|a|, 8) + (a + x) == LittleEndian(|b|, 8) + (b + y)
    ensures a == b && x == y
  {
    SamePrefix(LittleEndian(|a|, 8), a + x, LittleEndian(|b|, 8), b + y);
    EightBytesHoldLengths();
    LittleEndianReadsBack(|a|, 8);
    LittleEndianReadsBack(|b|, 8);
    SamePrefix(a, x, b, y);
  }

  lemma SamePrefix(a: Bytes, x: Bytes, b: Bytes, y: Bytes)
    requires |a| == |b| && a + x == b + y
    ensures a == b && x == y
  {
    assert a == (a + x)[..|a|] && b == (b + y)[..|b|];
    assert x == (a + x)[|a|..] && y == (b + y)[|b|..];
  }

  lemma {:induction false} StreamFront(inputs: seq<Input>)
    requires inputs != []
    ensures Stream(inputs) == Record(inputs[0]) + Stream(inputs[1..])
    decreases |inputs|
  {
    var n := |inputs| - 1;
    if n == 0 {
      assert inputs[..0] == [] && inputs[1..] == [];
      assert Stream(inputs) == [] + Record(inputs[0]);
    } else {
      var init, last := inputs[..n], inputs[n];
      StreamFront(init);
      assert inputs[1..][..n - 1] == init[1..] && inputs[1..][n - 1] == last;
      Associates(Record(inputs[0]), Stream(init[1..]), Record(last));
    }
  }

  /** Equal streams come from equal lists of inputs. */
  lemma {:induction false} StreamInjective(a: seq<Input>, b: seq<Input>)
    requires forall i | 0 <= i < |a| :: ValidInput(a[i])
    requires forall i | 0 <= i < |b| :: ValidInput(b[i])
    requires Stream(a) == Stream(b)
    ensures a == b
    decreases |a|
  {
    if a != [] {
      StreamFront(a);
    }
    if b != [] {
      StreamFront(b);
    }
    if a != [] && b != [] {
      RecordInjective(a[0], Stream(a[1..]), b[0], Stream(b[1..]));
      StreamInjective(a[1..], b[1..]);
      assert a == [a[0]] + a[1..] && b == [b[0]] + b[1..];
    }
  }

  lemma InputsValid(p: Project)
    requires ValidProject(p)
    ensures |Inputs(p)| == |SortedPaths(p)| && forall i | 0 <= i < |Inputs(p)| :: ValidInput(Inputs(p)[i])
  {
    SortedPathsValid(p);
    var sorted := SortedPaths(p);
    forall i | 0 <= i < |Inputs(p)|
      ensures ValidInput(Inputs(p)[i])
    {
      assert ValidPath(sorted[i]);
      JoinHasNoZero(sorted[i]);
      LossyHasNoZero(Join(sorted[i]));
    }
  }

  /** The bytes hashed for two projects are equal exactly when their sorted inputs look the same as text. */
  lemma HashedExactly(p: Project, q: Project)
    requires ValidProject(p) && ValidProject(q)
    ensures Hashed(p) == Hashed(q) <==> Inputs(p) == Inputs(q)
  {
    if Hashed(p) == Hashed(q) {
      assert Hashed(p)[|HEADER|..] == Stream(Inputs(p));
      assert Hashed(q)[|HEADER|..] == Stream(Inputs(q));
      InputsValid(p);
      InputsValid(q);
      StreamInjective(Inputs(p), Inputs(q));
    }
  }

  /** The two projects have the same input paths, and the same contents under them. */
  ghost predicate SameInputs(p: Project, q: Project)
    requires ValidProject(p) && ValidProject(q)
  {
    && multiset(p.paths) == multiset(q.paths)
    && forall i | 0 <= i < |p.paths| :: p.paths[i] in q.contents && p.contents[p.paths[i]] == q.contents[p.paths[i]]
  }

  lemma SortedPathsSame(p: Project, k: nat)
    requires ValidProject(p) && k < |SortedPaths(p)|
    ensures SortedPaths(p)[k] in p.paths
  {
    SortedPathsValid(p);
    assert SortedPaths(p)[k] in multiset(p.paths);
  }

  /** The order in which directories list the inputs does not matter, whatever the names are. */
  lemma OrderIsForgotten(p: Project, q: Project)
    requires ValidProject(p) && ValidProject(q) && SameInputs(p, q)
    ensures Hashed(p) == Hashed(q)
  {
    PathLeqIsTotalOrder();
    SortForgetsOrder(p.paths, q.paths, PathLeq());
    InputsValid(p);
    InputsValid(q);
    forall k | 0 <= k < |Inputs(p)|
      ensures Inputs(p)[k] == Inputs(q)[k]
    {
      SortedPathsSame(p, k);
      var i :| 0 <= i < |p.paths| && p.paths[i] == SortedPaths(p)[k];
      assert p.contents[p.paths[i]] == q.contents[p.paths[i]];
    }
    assert Inputs(p) == Inputs(q);
  }

  /** Equal inputs of UTF-8 projects are inputs of the same paths. */
  lemma SameSortedPaths(p: Project, q: Project)
    requires ValidProject(p) && ValidProject(q) && Utf8Paths(p) && Utf8Paths(q) && Inputs(p) == Inputs(q)
    ensures SortedPaths(p) == SortedPaths(q)
    ensures forall k | 0 <= k < |SortedPaths(p)| ::
              var path := SortedPaths(p)[k];
              path in p.contents && path in q.contents && p.contents[path] == q.contents[path]
  {
    InputsValid(p);
    InputsValid(q);
    SortedPathsValid(p);
    SortedPathsValid(q);
    forall k | 0 <= k < |SortedPaths(p)|
      ensures SortedPaths(p)[k] == SortedPaths(q)[k]
      ensures p.contents[SortedPaths(p)[k]] == q.contents[SortedPaths(q)[k]]
    {
      var a, b := SortedPaths(p)[k], SortedPaths(q)[k];
      SortedPathsSame(p, k);
      SortedPathsSame(q, k);
      WellFormedStays(Join(a));
      WellFormedStays(Join(b));
      assert Inputs(p)[k] == Inputs(q)[k];
      assert ValidPath(a) && ValidPath(b);
      JoinInjective(a, b);
    }
  }

  /**
   Among projects whose paths are UTF-8, the hashed bytes are equal exactly when the inputs
   are the same, in whatever order their directories list them.
   */
  lemma HashedExactlyInUtf8(p: Project, q: Project)
    requires ValidProject(p) && ValidProject(q) && Utf8Paths(p) && Utf8Paths(q)
    ensures Hashed(p) == Hashed(q) <==> SameInputs(p, q)
  {
    if SameInputs(p, q) {
      OrderIsForgotten(p, q);
    }
    if Hashed(p) == Hashed(q) {
      HashedExactly(p, q);
      SameSortedPaths(p, q);
      SortedPathsValid(p);
      SortedPathsValid(q);
      forall i | 0 <= i < |p.paths|
        ensures p.paths[i] in q.contents && p.contents[p.paths[i]] == q.contents[p.paths[i]]
      {
        assert p.paths[i] in multiset(SortedPaths(p));
        var k :| 0 <= k < |SortedPaths(p)| && SortedPaths(p)[k] == p.paths[i];
      }
    }
  }

  /** The file name "\xFF.php" or "\xFE.php": a byte that is never UTF-8, then the extension. */
  function StrangeName(first: Byte): Bytes {
    [first, 46, 112, 104, 112]
  }

  lemma StrangeText(first: Byte)
    requires first == 0xFF || first == 0xFE
    ensures Lossy(StrangeName(first)) == REPLACEMENT + Lossy([46, 112, 104, 112])
  {
    var name := StrangeName(first);
    assert FrontLength(name) == 0 && BrokenLength(name) == 1 && name[1..] == [46, 112, 104, 112];
  }

  function OneFile(name: Bytes, contents: Bytes): Project {
    Project([[name]], map[[name] := contents])
  }

  lemma OneFileInputs(name: Bytes, contents: Bytes)
    requires ValidName(name) && |contents| <= MAX_LENGTH
    ensures var p := OneFile(name, contents);
            ValidProject(p) && Inputs(p) == [Input(Lossy(name), contents)]
  {
    var p := OneFile(name, contents);
    var none: seq<RelativePath> := [];
    assert p.paths[1..] == none && Sort(none, PathLeq()) == none;
    assert SortedPaths(p) == Insert([name], none, PathLeq()) == [[name]];
  }

  /** The hashed bytes of a project with one file: header, name, zero byte, length, contents. */
  lemma OneFileBytes(name: Bytes, contents: Bytes)
    requires ValidName(name) && WellFormed(name) && |contents| <= MAX_LENGTH
    ensures ValidProject(OneFile(name, contents))
    ensures exists length: Bytes ::
              && |length| == 8 && FromLittleEndian(length) == |contents|
              && Hashed(OneFile(name, contents)) == HEADER + (name + [0] + length + contents)
  {
    OneFileInputs(name, contents);
    WellFormedStays(name);
    EightBytesHoldLengths();
    LittleEndianReadsBack(|contents|, 8);
    var input := Input(name, contents);
    assert [input][..0] == [] && Stream([input]) == [] + Record(input) == Record(input);
  }

  /** Without UTF-8 different projects can have the same fingerprint: these two differ in a name. */
  lemma StrangeNamesCollide(contents: Bytes)
    requires |contents| <= MAX_LENGTH
    ensures var p, q := OneFile(StrangeName(0xFF), contents), OneFile(StrangeName(0xFE), contents);
            ValidProject(p) && ValidProject(q) && Hashed(p) == Hashed(q) && !SameInputs(p, q)
  {
    var p, q := OneFile(StrangeName(0xFF), contents), OneFile(StrangeName(0xFE), contents);
    OneFileInputs(StrangeName(0xFF), contents);
    OneFileInputs(StrangeName(0xFE), contents);
    StrangeText(0xFF);
    StrangeText(0xFE);
    HashedExactly(p, q);
    assert StrangeName(0xFF)[0] != StrangeName(0xFE)[0];
    assert p.paths[0] !in q.contents;
  }

  lemma StreamGrows(inputs: seq<Input>, i: nat)
    requires i < |inputs|
    ensures Stream(inputs[..i + 1]) == Stream(inputs[..i]) + Record(inputs[i])
  {
    assert inputs[..i + 1][..i] == inputs[..i];
  }

  /** One file fed to the digest: its path, a zero byte, its length and its contents. */
  method FeedRecord(fed: Bytes, path: RelativePath, contents: Bytes) returns (after: Bytes)
    requires |contents| <= MAX_LENGTH
    ensures after == fed + Record(Input(Text(path), contents))
  {
    after := fed + Lossy(Join(path));
    after := after + [0];
    after := after + LittleEndian(|contents|, 8);
    after := after + contents;
  }

  /** `project_fingerprint`: sort, then feed one record after the other to the digest. */
  method Fingerprint(p: Project) returns (fed: Bytes)
    requires ValidProject(p)
    ensures fed == Hashed(p)
  {
    var sorted := SortedPaths(p);
    SortedPathsValid(p);
    ghost var inputs := Inputs(p);
    fed := HEADER;
    for i := 0 to |sorted|
      invariant fed == HEADER + Stream(inputs[..i])
    {
      StreamGrows(inputs, i);
      fed := FeedRecord(fed, sorted[i], p.contents[sorted[i]]);
      Associates(HEADER, Stream(inputs[..i]), Record(inputs[i]));
    }
    assert inputs[..|sorted|] == inputs;
  }

  // ------------------------------------------------------------- the snapshot

  const SNAPSHOT_SCHEMA: nat := 1

  /** A bootstrap as far as the snapshot looks at it. */
  datatype Bootstrap = Bootstrap(text: string, snapshotEnabled: bool)

  datatype SnapshotFile = SnapshotFile(schema: nat, protocol: nat, fingerprint: Bytes, bootstrap: Bootstrap)

  /** `publish`: write the snapshot, or remove it when the application turned it off. */
  function Publish(fingerprint: Bytes, protocol: nat, b: Bootstrap): Option<SnapshotFile> {
    if b.snapshotEnabled then Some(SnapshotFile(SNAPSHOT_SCHEMA, protocol, fingerprint, b)) else None
  }

  /** `load`; `valid` is the project's own check of a bootstrap. */
  function Load(file: Option<SnapshotFile>, fingerprint: Bytes, protocol: nat, valid: Bootstrap -> bool): Option<Bootstrap> {
    if file.None? then None
    else
      var s := file.value;
      if s.schema != SNAPSHOT_SCHEMA || s.protocol != protocol || s.fingerprint != fingerprint
         || !valid(s.bootstrap) || !s.bootstrap.snapshotEnabled
      then None else Some(s.bootstrap)
  }

  /** A snapshot of another version, of another project state, turned off or invalid is never used. */
  lemma SnapshotLoadsExactly(f: SnapshotFile, fingerprint: Bytes, protocol: nat, valid: Bootstrap -> bool, b: Bootstrap)
    ensures Load(Some(f), fingerprint, protocol, valid) == Some(b) <==>
            && b == f.bootstrap && b.snapshotEnabled && valid(b)
            && f.schema == 1 && f.protocol == protocol && f.fingerprint == fingerprint
    ensures Load(None, fingerprint, protocol, valid) == None
    ensures !b.snapshotEnabled ==> Publish(fingerprint, protocol, b) == None
  {
  }

  /**
   With a digest that keeps the two streams apart, a published bootstrap is loaded again
   exactly while the project looks the same (and the bootstrap allows and passes it); among
   UTF-8 projects, exactly while its inputs are unchanged.
   */
  lemma SnapshotUsedExactly(before: Project, now: Project, digest: Bytes -> Bytes, protocol: nat,
                            b: Bootstrap, valid: Bootstrap -> bool)
    requires ValidProject(before) && ValidProject(now)
    requires digest(Hashed(before)) == digest(Hashed(now)) ==> Hashed(before) == Hashed(now)
    ensures var file := Publish(digest(Hashed(before)), protocol, b);
            var used := Load(file, digest(Hashed(now)), protocol, valid) == Some(b);
            && (used <==> Inputs(before) == Inputs(now) && b.snapshotEnabled && valid(b))
            && (Utf8Paths(before) && Utf8Paths(now) ==>
                  (used <==> SameInputs(before, now) && b.snapshotEnabled && valid(b)))
  {
    HashedExactly(before, now);
    if Utf8Paths(before) && Utf8Paths(now) {
      HashedExactlyInUtf8(before, now);
    }
  }
}
