/**
 * `findAndDeleteDuplicateFiles`: index the walked files by checksum, in walk
 * order, then delete every file of a group but the first.
 *
 * The index is specified by `Groups`, a left fold of the per-file step over
 * the walk, and characterised by `Matching` (the walk filtered by checksum).
 * The deletions are specified by `TargetsOf`, the tails of all groups whatever
 * order the keys are visited in, and characterised by `Duplicates` (the walked
 * paths whose checksum an earlier path already had).
 */
module DuplicateFileRemover {
  import opened JavaIo
  import opened HexFormat
  import opened Md5Checksum

  /** The hexadecimal checksum that keys the index. */
  type Digest = string

  /** `Map<String, List<String>> filesMap` */
  type FilesMap = map<Digest, seq<Path>>

  /** No path occurs twice in the walk. */
  predicate Distinct(walk: seq<Path>) {
    forall i, j :: 0 <= i < j < |walk| ==> walk[i] != walk[j]
  }

  /** What hashing a path gives the scan: its checksum, or nothing when an exception was caught. */
  function HashOutcome(files: map<Path, FileData>, md5: seq<JByte> -> seq<JByte>): (r: Path -> Option<Digest>)
    ensures forall p :: r(p).Some? <==> p in files && files[p].Readable()
    ensures forall p :: r(p).Some? ==> IsLowerHex(r(p).value) && |r(p).value| == 2 * |md5(files[p].content)|
  {
    p => if Checksum(files, p, md5).Ok? then Some(Checksum(files, p, md5).value) else None
  }

  // ---------------------------------------------------------------------------
  // The index
  // ---------------------------------------------------------------------------

  /** One run of the walk's `forEach` body for `file`, whose hashing gave `hash`. */
  function Insert(filesMap: FilesMap, file: Path, hash: Option<Digest>): (r: FilesMap)
    ensures hash.None? ==> r == filesMap
    ensures hash.Some? ==>
      && r.Keys == filesMap.Keys + {hash.value}
      && r[hash.value] == (if hash.value in filesMap then filesMap[hash.value] else []) + [file]
    ensures forall h :: h in filesMap && hash != Some(h) ==> r[h] == filesMap[h]
  {
    match hash
    case None => filesMap
    case Some(h) =>
      var m := if h !in filesMap then filesMap[h := []] else filesMap;
      m[h := m[h] + [file]]
  }

  /**
   * The index after the walk: the per-file step applied to each path in walk
   * order. A key is created only just before a path is appended to its list,
   * so no list is empty.
   */
  function Groups(walk: seq<Path>, hashOf: Path -> Option<Digest>): (r: FilesMap)
    ensures forall h :: h in r ==> |r[h]| > 0
  {
    if walk == [] then map[]
    else Insert(Groups(walk[..|walk| - 1], hashOf), walk[|walk| - 1], hashOf(walk[|walk| - 1]))
  }

  /** The walked paths whose checksum is `h`, in walk order. */
  function Matching(walk: seq<Path>, hashOf: Path -> Option<Digest>, h: Digest): (r: seq<Path>)
    ensures forall p :: p in r ==> p in walk && hashOf(p) == Some(h)
  {
    if walk == [] then []
    else
      var last := walk[|walk| - 1];
      Matching(walk[..|walk| - 1], hashOf, h) + (if hashOf(last) == Some(h) then [last] else [])
  }

  /** The walked paths that were hashed, in walk order. */
  function Hashed(walk: seq<Path>, hashOf: Path -> Option<Digest>): seq<Path> {
    if walk == [] then []
    else
      var last := walk[|walk| - 1];
      Hashed(walk[..|walk| - 1], hashOf) + (if hashOf(last).Some? then [last] else [])
  }

  /** The distinct checksums of the walked paths. */
  function Digests(walk: seq<Path>, hashOf: Path -> Option<Digest>): set<Digest> {
    if walk == [] then {}
    else
      var last := walk[|walk| - 1];
      Digests(walk[..|walk| - 1], hashOf) + (if hashOf(last).Some? then {hashOf(last).value} else {})
  }

  lemma {:induction false} DigestsMember(walk: seq<Path>, hashOf: Path -> Option<Digest>, h: Digest)
    ensures h in Digests(walk, hashOf) <==> exists i :: 0 <= i < |walk| && hashOf(walk[i]) == Some(h)
  {
    if walk != [] {
      var prefix := walk[..|walk| - 1];
      DigestsMember(prefix, hashOf, h);
      if exists i :: 0 <= i < |walk| && hashOf(walk[i]) == Some(h) {
        var i :| 0 <= i < |walk| && hashOf(walk[i]) == Some(h);
        if i < |prefix| {
          assert prefix[i] == walk[i];
        }
      }
      if exists i :: 0 <= i < |prefix| && hashOf(prefix[i]) == Some(h) {
        var i :| 0 <= i < |prefix| && hashOf(prefix[i]) == Some(h);
        assert walk[i] == prefix[i];
      }
    }
  }

  /**
   * The index has a key for each checksum of the walk and for nothing else;
   * the list under a key is never empty and is exactly the walked paths with
   * that checksum, in walk order.
   */
  lemma {:induction false} GroupsAreMatching(walk: seq<Path>, hashOf: Path -> Option<Digest>)
    ensures Groups(walk, hashOf).Keys == Digests(walk, hashOf)
    ensures forall h :: h in Groups(walk, hashOf) ==>
      Groups(walk, hashOf)[h] == Matching(walk, hashOf, h) && Groups(walk, hashOf)[h] != []
    ensures forall h :: Matching(walk, hashOf, h) == [] <==> h !in Digests(walk, hashOf)
  {
    if walk != [] {
      var prefix, last := walk[..|walk| - 1], walk[|walk| - 1];
      GroupsAreMatching(prefix, hashOf);
      var before := Groups(prefix, hashOf);
      assert Groups(walk, hashOf) == Insert(before, last, hashOf(last));
      forall h
        ensures Matching(walk, hashOf, h) == Matching(prefix, hashOf, h) + (if hashOf(last) == Some(h) then [last] else [])
      {
      }
    }
  }

  /** A path occurs in the list for `h` as often as the walk yields it if its checksum is `h`, and never otherwise. */
  lemma {:induction false} MatchingMultiplicity(walk: seq<Path>, hashOf: Path -> Option<Digest>, h: Digest, p: Path)
    ensures multiset(Matching(walk, hashOf, h))[p] == if hashOf(p) == Some(h) then multiset(walk)[p] else 0
  {
    if walk != [] {
      var prefix, last := walk[..|walk| - 1], walk[|walk| - 1];
      MatchingMultiplicity(prefix, hashOf, h, p);
      assert walk == prefix + [last];
      assert multiset(walk) == multiset(prefix) + multiset{last};
    }
  }

  /**
   * Where a walked path ends up: a path whose hashing failed is in no list; a
   * hashed path is in the list of its own checksum, once per time the walk
   * yielded it, and in no other list.
   */
  lemma Placement(walk: seq<Path>, hashOf: Path -> Option<Digest>, p: Path)
    ensures hashOf(p).None? ==> forall h :: h in Groups(walk, hashOf) ==> p !in Groups(walk, hashOf)[h]
    ensures hashOf(p).Some? && p in walk ==>
      && hashOf(p).value in Groups(walk, hashOf)
      && multiset(Groups(walk, hashOf)[hashOf(p).value])[p] == multiset(walk)[p]
    ensures forall h :: h in Groups(walk, hashOf) && p in Groups(walk, hashOf)[h] ==> hashOf(p) == Some(h)
  {
    var g := Groups(walk, hashOf);
    GroupsAreMatching(walk, hashOf);
    if hashOf(p).Some? && p in walk {
      var i :| 0 <= i < |walk| && walk[i] == p;
      DigestsMember(walk, hashOf, hashOf(p).value);
      MatchingMultiplicity(walk, hashOf, hashOf(p).value, p);
    }
  }

  // ---------------------------------------------------------------------------
  // The deletions
  // ---------------------------------------------------------------------------

  /** The entries at indices 1..size-1 of a group of more than one file. */
  function Tail(group: seq<Path>): (r: seq<Path>)
    ensures |r| == if group == [] then 0 else |group| - 1
    ensures forall i :: 0 <= i < |r| ==> r[i] == group[i + 1]
  {
    if |group| > 1 then group[1..] else []
  }

  /** Every path the deletion loop hands to `deleteIfExists` for the groups under `keys`. */
  ghost function TargetsOf(m: FilesMap, keys: set<Digest>): multiset<Path>
    requires keys <= m.Keys
    decreases keys
  {
    if keys == {} then multiset{}
    else
      var h :| h in keys;
      multiset(Tail(m[h])) + TargetsOf(m, keys - {h})
  }

  /** The targets do not depend on which key is visited first. */
  lemma {:induction false} TargetsOfPick(m: FilesMap, keys: set<Digest>, h: Digest)
    requires keys <= m.Keys && h in keys
    ensures TargetsOf(m, keys) == multiset(Tail(m[h])) + TargetsOf(m, keys - {h})
    decreases keys
  {
    var k :| k in keys && TargetsOf(m, keys) == multiset(Tail(m[k])) + TargetsOf(m, keys - {k});
    if k != h {
      TargetsOfPick(m, keys - {k}, h);
      TargetsOfPick(m, keys - {h}, k);
      assert keys - {k} - {h} == keys - {h} - {k};
    }
  }

  /** The targets of `keys` depend only on the groups under `keys`. */
  lemma {:induction false} TargetsOfAgree(m: FilesMap, m': FilesMap, keys: set<Digest>)
    requires keys <= m.Keys && keys <= m'.Keys
    requires forall h :: h in keys ==> m[h] == m'[h]
    ensures TargetsOf(m, keys) == TargetsOf(m', keys)
    decreases keys
  {
    if keys != {} {
      var h :| h in keys;
      TargetsOfPick(m, keys, h);
      TargetsOfPick(m', keys, h);
      TargetsOfAgree(m, m', keys - {h});
    }
  }

  /** Visiting one more key adds that group's tail to the targets. */
  lemma TargetsVisit(m: FilesMap, done: set<Digest>, h: Digest)
    requires done <= m.Keys && h in m && h !in done
    ensures TargetsOf(m, done + {h}) == TargetsOf(m, done) + multiset(Tail(m[h]))
  {
    TargetsOfPick(m, done + {h}, h);
    assert done + {h} - {h} == done;
  }

  /** A group of at most one file contributes no target. */
  lemma {:induction false} SingletonGroupsDeleteNothing(m: FilesMap, keys: set<Digest>)
    requires keys <= m.Keys
    requires forall h :: h in keys ==> |m[h]| <= 1
    ensures TargetsOf(m, keys) == multiset{}
    decreases keys
  {
    if keys != {} {
      var h :| h in keys;
      TargetsOfPick(m, keys, h);
      SingletonGroupsDeleteNothing(m, keys - {h});
    }
  }

  /** The walked paths whose checksum an earlier walked path already had, in walk order. */
  function Duplicates(walk: seq<Path>, hashOf: Path -> Option<Digest>): (r: seq<Path>)
    ensures forall p :: p in r ==> p in walk && hashOf(p).Some?
  {
    if walk == [] then []
    else
      var prefix, last := walk[..|walk| - 1], walk[|walk| - 1];
      Duplicates(prefix, hashOf)
        + (if hashOf(last).Some? && hashOf(last).value in Digests(prefix, hashOf) then [last] else [])
  }

  /** Appending a path to an existing list adds that path to the targets. */
  lemma TargetsAppend(m: FilesMap, h: Digest, file: Path)
    requires h in m && m[h] != []
    ensures TargetsOf(m[h := m[h] + [file]], m.Keys) == TargetsOf(m, m.Keys) + multiset{file}
  {
    var m' := m[h := m[h] + [file]];
    assert Tail(m'[h]) == Tail(m[h]) + [file];
    TargetsOfPick(m', m.Keys, h);
    TargetsOfPick(m, m.Keys, h);
    TargetsOfAgree(m', m, m.Keys - {h});
  }

  /** A new list of one path adds no target. */
  lemma TargetsNewKey(m: FilesMap, h: Digest, file: Path)
    requires h !in m
    ensures TargetsOf(m[h := [file]], m.Keys + {h}) == TargetsOf(m, m.Keys)
  {
    var m' := m[h := [file]];
    assert m.Keys + {h} - {h} == m.Keys;
    TargetsOfPick(m', m.Keys + {h}, h);
    TargetsOfAgree(m', m, m.Keys);
  }

  /** One step of the scan adds the path to the targets exactly when its checksum already has a list. */
  lemma TargetsInsert(m: FilesMap, file: Path, hash: Option<Digest>)
    requires forall h :: h in m ==> m[h] != []
    ensures TargetsOf(Insert(m, file, hash), Insert(m, file, hash).Keys)
      == TargetsOf(m, m.Keys) + (if hash.Some? && hash.value in m then multiset{file} else multiset{})
  {
    if hash.Some? {
      var h := hash.value;
      if h in m {
        var m' := m[h := m[h] + [file]];
        assert Insert(m, file, hash) == m';
        assert m'.Keys == m.Keys;
        TargetsAppend(m, h, file);
      } else {
        var m' := m[h := [file]];
        assert [] + [file] == [file];
        assert Insert(m, file, hash) == m';
        assert m'.Keys == m.Keys + {h};
        TargetsNewKey(m, h, file);
      }
    }
  }

  /**
   * The deletion loop hands `deleteIfExists` exactly the walked paths whose
   * checksum an earlier walked path already had, as often as they occur,
   * whatever order the index's keys are visited in.
   */
  lemma {:induction false} TargetsAreDuplicates(walk: seq<Path>, hashOf: Path -> Option<Digest>)
    ensures TargetsOf(Groups(walk, hashOf), Groups(walk, hashOf).Keys) == multiset(Duplicates(walk, hashOf))
  {
    if walk != [] {
      var prefix, last := walk[..|walk| - 1], walk[|walk| - 1];
      TargetsAreDuplicates(prefix, hashOf);
      GroupsAreMatching(prefix, hashOf);
      TargetsInsert(Groups(prefix, hashOf), last, hashOf(last));
    }
  }

  /** There are as many deletion targets as hashed paths minus distinct checksums. */
  lemma {:induction false} DuplicateCount(walk: seq<Path>, hashOf: Path -> Option<Digest>)
    ensures |Duplicates(walk, hashOf)| == |Hashed(walk, hashOf)| - |Digests(walk, hashOf)|
  {
    if walk != [] {
      var prefix, last := walk[..|walk| - 1], walk[|walk| - 1];
      DuplicateCount(prefix, hashOf);
      if hashOf(last).Some? && hashOf(last).value !in Digests(prefix, hashOf) {
        assert |Digests(walk, hashOf)| == |Digests(prefix, hashOf)| + 1;
      } else if hashOf(last).Some? {
        assert Digests(walk, hashOf) == Digests(prefix, hashOf);
      }
    }
  }

  /**
   * A path is a deletion target exactly when the walk yields it at a position
   * where it hashes to a checksum that an earlier path already had.
   */
  lemma {:induction false} DuplicatesMember(walk: seq<Path>, hashOf: Path -> Option<Digest>, p: Path)
    ensures p in Duplicates(walk, hashOf) <==>
      exists j :: 0 <= j < |walk| && walk[j] == p && hashOf(p).Some? && hashOf(p).value in Digests(walk[..j], hashOf)
  {
    if walk != [] {
      var prefix, last := walk[..|walk| - 1], walk[|walk| - 1];
      DuplicatesMember(prefix, hashOf, p);
      if p in Duplicates(prefix, hashOf) {
        var j :| 0 <= j < |prefix| && prefix[j] == p && hashOf(p).Some? && hashOf(p).value in Digests(prefix[..j], hashOf);
        assert walk[j] == p && walk[..j] == prefix[..j];
      } else if p in Duplicates(walk, hashOf) {
        assert p == last;
        assert walk[..|prefix|] == prefix;
      }
      if exists j :: 0 <= j < |walk| && walk[j] == p && hashOf(p).Some? && hashOf(p).value in Digests(walk[..j], hashOf) {
        var j :| 0 <= j < |walk| && walk[j] == p && hashOf(p).Some? && hashOf(p).value in Digests(walk[..j], hashOf);
        if j < |prefix| {
          assert prefix[j] == p && prefix[..j] == walk[..j];
        } else {
          assert walk[..j] == prefix;
        }
      }
    }
  }

  /** When the walk yields each path once, the first path of every group is never a deletion target. */
  lemma {:induction false} FirstIsKept(walk: seq<Path>, hashOf: Path -> Option<Digest>)
    requires Distinct(walk)
    ensures forall h :: h in Groups(walk, hashOf) ==> Groups(walk, hashOf)[h][0] !in Duplicates(walk, hashOf)
  {
    if walk != [] {
      var prefix, last := walk[..|walk| - 1], walk[|walk| - 1];
      assert Distinct(prefix);
      assert last !in prefix;
      FirstIsKept(prefix, hashOf);
      GroupsAreMatching(prefix, hashOf);
      var g, g' := Groups(walk, hashOf), Groups(prefix, hashOf);
      assert g == Insert(g', last, hashOf(last));
      assert last !in Duplicates(prefix, hashOf);
      forall h | h in g
        ensures g[h][0] !in Duplicates(walk, hashOf)
      {
        if h in g' {
          assert g[h][0] == g'[h][0];
          assert g'[h][0] in Matching(prefix, hashOf, h);
        } else {
          assert hashOf(last) == Some(h) && g[h][0] == last;
        }
      }
    }
  }

  /** The existing paths `deleteIfExists` removes when handed `targets`: all but the locked ones. */
  ghost function Doomed(targets: multiset<Path>, locked: set<Path>): set<Path> {
    set p | p in targets && p !in locked
  }

  /** Handing one more path to `deleteIfExists` removes it unless its deletion is refused. */
  lemma DoomedAdd(files: map<Path, FileData>, targets: multiset<Path>, file: Path, locked: set<Path>)
    ensures files - Doomed(targets + multiset{file}, locked)
      == if file in locked then files - Doomed(targets, locked) else (files - Doomed(targets, locked)) - {file}
  {
    assert Doomed(targets + multiset{file}, locked)
      == Doomed(targets, locked) + (if file in locked then {} else {file});
  }

  /** Handing over two batches of paths removes what handing over both at once does. */
  lemma DoomedUnion(files: map<Path, FileData>, first: multiset<Path>, second: multiset<Path>, locked: set<Path>)
    ensures files - Doomed(first + second, locked) == (files - Doomed(first, locked)) - Doomed(second, locked)
  {
    assert Doomed(first + second, locked) == Doomed(first, locked) + Doomed(second, locked);
  }

  /**
   * Under a walk that yields each path once, every group's first file is
   * still there after the deletions, with its content.
   */
  lemma KeptFilesSurvive(files: map<Path, FileData>, locked: set<Path>, walk: seq<Path>, md5: seq<JByte> -> seq<JByte>)
    requires Distinct(walk)
    ensures
      var hashOf := HashOutcome(files, md5);
      var g := Groups(walk, hashOf);
      var after := files - Doomed(multiset(Duplicates(walk, hashOf)), locked);
      forall h :: h in g ==> g[h][0] in after && after[g[h][0]] == files[g[h][0]]
  {
    var hashOf := HashOutcome(files, md5);
    var g := Groups(walk, hashOf);
    FirstIsKept(walk, hashOf);
    GroupsAreMatching(walk, hashOf);
    forall h | h in g
      ensures g[h][0] in files
    {
      assert g[h][0] in Matching(walk, hashOf, h);
    }
  }

  /** A walk that yields each path once yields each deletion target once. */
  lemma {:induction false} DuplicatesDistinct(walk: seq<Path>, hashOf: Path -> Option<Digest>)
    requires Distinct(walk)
    ensures Distinct(Duplicates(walk, hashOf))
  {
    if walk != [] {
      var prefix, last := walk[..|walk| - 1], walk[|walk| - 1];
      assert Distinct(prefix);
      assert last !in prefix;
      DuplicatesDistinct(prefix, hashOf);
    }
  }

  /** A sequence without repetitions has as many distinct elements as entries. */
  lemma {:induction false} DistinctCardinality(s: seq<Path>)
    requires Distinct(s)
    ensures |set p | p in s| == |s|
  {
    if s != [] {
      var prefix, last := s[..|s| - 1], s[|s| - 1];
      assert Distinct(prefix);
      assert last !in prefix;
      DistinctCardinality(prefix);
      assert (set p | p in s) == (set p | p in prefix) + {last};
    }
  }

  /** Removing present keys shrinks a map by their number. */
  lemma MapRemoveCardinality(files: map<Path, FileData>, doomed: set<Path>)
    requires doomed <= files.Keys
    ensures |files - doomed| == |files| - |doomed|
  {
    assert (files - doomed).Keys == files.Keys - doomed;
    assert files.Keys == (files.Keys - doomed) + doomed;
  }

  /**
   * When the walk yields each path once and no walked path is protected from
   * deletion, the run removes as many files as there are hashed paths minus
   * distinct checksums.
   */
  lemma RemovedCount(files: map<Path, FileData>, locked: set<Path>, walk: seq<Path>, md5: seq<JByte> -> seq<JByte>)
    requires Distinct(walk)
    requires forall p :: p in walk ==> p !in locked
    ensures
      var hashOf := HashOutcome(files, md5);
      var after := files - Doomed(multiset(Duplicates(walk, hashOf)), locked);
      |files| - |after| == |Hashed(walk, hashOf)| - |Digests(walk, hashOf)|
  {
    var hashOf := HashOutcome(files, md5);
    var dups := Duplicates(walk, hashOf);
    var doomed := Doomed(multiset(dups), locked);
    assert doomed == set p | p in dups by {
      assert forall p :: p in dups ==> p in walk;
    }
    assert doomed <= files.Keys by {
      forall p | p in doomed ensures p in files {
        assert hashOf(p).Some?;
      }
    }
    MapRemoveCardinality(files, doomed);
    DuplicatesDistinct(walk, hashOf);
    DistinctCardinality(dups);
    DuplicateCount(walk, hashOf);
  }

  /**
   * Two hashed walked paths share a list exactly when the digest algorithm
   * maps their contents to the same bytes.
   */
  lemma SameGroupIffSameDigest(files: map<Path, FileData>, walk: seq<Path>, md5: seq<JByte> -> seq<JByte>, p: Path, q: Path)
    requires p in walk && q in walk
    requires Checksum(files, p, md5).Ok? && Checksum(files, q, md5).Ok?
    ensures
      var g := Groups(walk, HashOutcome(files, md5));
      (exists h :: h in g && p in g[h] && q in g[h]) <==> md5(files[p].content) == md5(files[q].content)
  {
    var hashOf := HashOutcome(files, md5);
    var g := Groups(walk, hashOf);
    Placement(walk, hashOf, p);
    Placement(walk, hashOf, q);
    SameChecksumIffSameDigest(files, p, q, md5);
    if md5(files[p].content) == md5(files[q].content) {
      var h := hashOf(p).value;
      assert multiset(g[h])[p] > 0 && multiset(g[h])[q] > 0;
    }
  }

  /**
   * Two files with one checksum and a third with another: one group of two
   * and a group of one.
   */
  lemma ThreeFileGroups(hashOf: Path -> Option<Digest>, a: Path, b: Path, c: Path, h1: Digest, h2: Digest)
    requires h1 != h2
    requires hashOf(a) == Some(h1) && hashOf(b) == Some(h1) && hashOf(c) == Some(h2)
    ensures Groups([a, b, c], hashOf) == map[h1 := [a, b], h2 := [c]]
  {
    var none: FilesMap := map[];
    assert Groups([a], hashOf) == map[h1 := [a]] by {
      assert [a][..0] == [];
      assert Groups([a], hashOf) == Insert(none, a, Some(h1));
      assert [] + [a] == [a];
    }
    assert Groups([a, b], hashOf) == map[h1 := [a, b]] by {
      assert [a, b][..1] == [a];
      assert Groups([a, b], hashOf) == Insert(map[h1 := [a]], b, Some(h1));
      assert [a] + [b] == [a, b];
    }
    assert Groups([a, b, c], hashOf) == Insert(map[h1 := [a, b]], c, Some(h2)) by {
      assert [a, b, c][..2] == [a, b];
    }
    assert Insert(map[h1 := [a, b]], c, Some(h2)) == map[h1 := [a, b]][h2 := [c]] by {
      assert [] + [c] == [c];
    }
  }

  /** In the same walk, the second path with the shared checksum is the only deletion target. */
  lemma ThreeFileDuplicates(hashOf: Path -> Option<Digest>, a: Path, b: Path, c: Path, h1: Digest, h2: Digest)
    requires h1 != h2
    requires hashOf(a) == Some(h1) && hashOf(b) == Some(h1) && hashOf(c) == Some(h2)
    ensures Duplicates([a, b, c], hashOf) == [b]
  {
    assert [a][..0] == [] && [a, b][..1] == [a] && [a, b, c][..2] == [a, b];
    assert Digests([a], hashOf) == {h1};
    assert Digests([a, b], hashOf) == {h1};
    assert Duplicates([a], hashOf) == [];
    assert Duplicates([a, b], hashOf) == [b];
  }

  /**
   * Two empty files, the first of which may not be opened: its hashing throws
   * and is caught, so the second is alone with its checksum and nothing is a
   * deletion target.
   */
  lemma UnopenableExample(files: map<Path, FileData>, md5: seq<JByte> -> seq<JByte>, e1: Path, e2: Path)
    requires e1 in files && files[e1] == FileData([], false, None)
    requires e2 in files && files[e2] == FileData([], true, None)
    ensures HashOutcome(files, md5)(e1) == None
    ensures Duplicates([e1, e2], HashOutcome(files, md5)) == []
  {
    var hashOf := HashOutcome(files, md5);
    assert [e1, e2][..1] == [e1] && [e1][..0] == [];
    assert Digests([e1], hashOf) == {};
    assert Duplicates([e1], hashOf) == [];
  }

  // ---------------------------------------------------------------------------
  // The two loops
  // ---------------------------------------------------------------------------

  /** The walk and its `forEach` body: hash each path and append it to its checksum's list. */
  method IndexByChecksum(fs: FileSystem, walk: seq<Path>, md5: seq<JByte> -> seq<JByte>) returns (filesMap: FilesMap)
    ensures filesMap == Groups(walk, HashOutcome(fs.files, md5))
  {
    ghost var hashOf := HashOutcome(fs.files, md5);
    filesMap := map[];
    for k := 0 to |walk|
      invariant filesMap == Groups(walk[..k], hashOf)
    {
      var file := walk[k];
      var checksum := GetMd5Checksum(fs, file, md5);
      assert hashOf(file) == if checksum.Ok? then Some(checksum.value) else None;
      assert Groups(walk[..k + 1], hashOf) == Insert(filesMap, file, hashOf(file)) by {
        assert walk[..k + 1][..k] == walk[..k];
      }
      if checksum.Ok? {
        var hash := checksum.value;
        if hash !in filesMap {
          filesMap := filesMap[hash := []];
        }
        filesMap := filesMap[hash := filesMap[hash] + [file]];
      }
    }
    assert walk[..|walk|] == walk;
  }

  /**
   * The inner loop over one list of more than one path: every path after the
   * first is handed to `deleteIfExists`, whose exceptions are caught.
   */
  method DeleteAllButFirst(fs: FileSystem, fileList: seq<Path>)
    requires |fileList| > 1
    modifies fs`files
    ensures fs.files == old(fs.files) - Doomed(multiset(Tail(fileList)), fs.locked)
  {
    for i := 1 to |fileList|
      invariant fs.files == old(fs.files) - Doomed(multiset(fileList[1..i]), fs.locked)
    {
      var deleted := fs.DeleteIfExists(fileList[i]);
      assert fileList[1..i + 1] == fileList[1..i] + [fileList[i]];
      DoomedAdd(old(fs.files), multiset(fileList[1..i]), fileList[i], fs.locked);
    }
    assert fileList[1..|fileList|] == Tail(fileList);
  }

  /**
   * The loop over the index's keys, in no particular order: each list of more
   * than one path loses every path after the first. `attempted` records the
   * paths handed to `deleteIfExists`.
   */
  method DeleteDuplicates(fs: FileSystem, filesMap: FilesMap) returns (ghost attempted: multiset<Path>)
    modifies fs`files
    ensures attempted == TargetsOf(filesMap, filesMap.Keys)
    ensures fs.files == old(fs.files) - Doomed(attempted, fs.locked)
  {
    attempted := multiset{};
    var remaining := filesMap.Keys;
    ghost var visited: set<Digest> := {};
    while remaining != {}
      invariant visited !! remaining && visited + remaining == filesMap.Keys
      invariant attempted == TargetsOf(filesMap, visited)
      invariant fs.files == old(fs.files) - Doomed(attempted, fs.locked)
      decreases remaining
    {
      var hash :| hash in remaining;
      var fileList := filesMap[hash];
      if |fileList| > 1 {
        DeleteAllButFirst(fs, fileList);
      }
      DoomedUnion(old(fs.files), attempted, multiset(Tail(fileList)), fs.locked);
      TargetsVisit(filesMap, visited, hash);
      attempted := attempted + multiset(Tail(fileList));
      visited := visited + {hash};
      remaining := remaining - {hash};
    }
  }

  /**
   * `findAndDeleteDuplicateFiles`: when the walk cannot start nothing
   * happens; otherwise the files removed are exactly the walked paths whose
   * checksum an earlier walked path already had, except those whose deletion
   * is refused.
   */
  method FindAndDeleteDuplicateFiles(fs: FileSystem, walk: Result<seq<Path>>, md5: seq<JByte> -> seq<JByte>)
    modifies fs`files
    ensures walk.Err? ==> fs.files == old(fs.files)
    ensures walk.Ok? ==>
      fs.files == old(fs.files) - Doomed(multiset(Duplicates(walk.value, HashOutcome(old(fs.files), md5))), fs.locked)
  {
    if walk.Err? {
      return;
    }
    var filesMap := IndexByChecksum(fs, walk.value, md5);
    ghost var attempted := DeleteDuplicates(fs, filesMap);
    TargetsAreDuplicates(walk.value, HashOutcome(old(fs.files), md5));
  }
}
