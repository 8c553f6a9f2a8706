/**
 Validation of a producer's output against its manifest.  Both walkers accept exactly the outputs whose
 files are the declared ones: neither looks for missing names, they only count entries, and the count is
 proved to imply equality of the name sets.
 */
module ProducerOutput {
  import opened Text
  import opened Wrappers
  import opened PublicationDigest
  import Lifecycle = BuildLifecycle

  datatype Kind = Regular | Symlink | Directory | Other

  /** A directory entry: its metadata, and what reading it yields. */
  datatype Node = Node(name: string, kind: Kind, size: I64, stat: bool, readable: bool, content: Bytes)

  datatype Declared = Declared(name: string, size: I64, sha256: string)

  datatype Manifest = Manifest(files: seq<Declared>, privateNames: seq<string>)

  /** The hash, in hexadecimal. */
  type Digest = Bytes -> string

  function NodeNames(nodes: seq<Node>): (names: seq<string>)
    ensures |names| == |nodes| && forall i :: 0 <= i < |nodes| ==> names[i] == nodes[i].name
  {
    seq(|nodes|, i requires 0 <= i < |nodes| => nodes[i].name)
  }

  function FileNames(files: seq<Declared>): (names: seq<string>)
    ensures |names| == |files| && forall i :: 0 <= i < |files| ==> names[i] == files[i].name
  {
    seq(|files|, i requires 0 <= i < |files| => files[i].name)
  }

  function Elements(s: seq<string>): set<string> { set x | x in s }

  ghost predicate NoDuplicates(s: seq<string>) { forall i, j :: 0 <= i < j < |s| ==> s[i] != s[j] }

  /** Entries of one directory, or files of one tree, have different names. */
  ghost predicate DistinctNames(nodes: seq<Node>) { NoDuplicates(NodeNames(nodes)) }

  function Names(nodes: seq<Node>): set<string> { Elements(NodeNames(nodes)) }

  function SizeSum(nodes: seq<Node>): int { if nodes == [] then 0 else SizeSum(nodes[..|nodes| - 1]) + nodes[|nodes| - 1].size }

  // ---------------------------------------------------------------- one file

  /** The file is what the manifest declares. */
  predicate Delivers(n: Node, d: Declared, digest: Digest) {
    && n.stat
    && n.kind.Regular?
    && n.readable
    && n.size == d.size == |n.content| <= MAX_FILE_BYTES
    && Lifecycle.Lower(digest(n.content)) == Lifecycle.Lower(d.sha256)
  }

  predicate PrivateFile(n: Node) {
    n.name == "custom_.txt" && n.stat && n.kind.Regular? && 0 <= n.size <= MAX_FILE_BYTES
  }

  predicate FileOk(n: Node, expected: map<string, Declared>, private: set<string>, digest: Digest) {
    if n.name in expected then Delivers(n, expected[n.name], digest) else n.name in private && PrivateFile(n)
  }

  /** uint64 subtraction and addition. */
  function Sub(x: U64, y: U64): U64 { if x >= y then x - y else x - y + TWO64 }
  function Add(x: U64, y: U64): U64 { if x + y < TWO64 then x + y else x + y - TWO64 }

  /** One entry: accepted exactly when it is a declared or private file and the running total stays within the limit. */
  method CheckFile(n: Node, expected: map<string, Declared>, private: set<string>, digest: Digest, total: U64)
    returns (r: Option<U64>)
    requires total <= MAX_TOTAL_BYTES
    ensures r.Some? <==> FileOk(n, expected, private, digest) && total + n.size <= MAX_TOTAL_BYTES
    ensures r.Some? ==> r.value == total + n.size
  {
    if !n.stat { return None; }
    if n.name !in expected {
      if n.name !in private { return None; }
      if n.name != "custom_.txt" || !n.kind.Regular? || n.size < 0 || Wrap(n.size) > MAX_FILE_BYTES { return None; }
      if total > Sub(MAX_TOTAL_BYTES, Wrap(n.size)) { return None; }
      return Some(Add(total, Wrap(n.size)));
    }
    if !n.kind.Regular? || !n.readable { return None; }
    var limit := MAX_FILE_BYTES + 1;
    var copied := if |n.content| > limit then n.content[..limit] else n.content;
    if |copied| != n.size || |copied| > MAX_FILE_BYTES { return None; }
    assert copied == n.content;
    if expected[n.name].size != n.size { return None; }
    if Lifecycle.Lower(digest(copied)) != Lifecycle.Lower(expected[n.name].sha256) { return None; }
    if total > Sub(MAX_TOTAL_BYTES, |copied|) { return None; }
    r := Some(Add(total, |copied|));
  }

  // ---------------------------------------------------------------- declarations

  /** The manifest's files by name; a later declaration of a name replaces an earlier one. */
  function Index(files: seq<Declared>): (m: map<string, Declared>)
    ensures m.Keys == Elements(FileNames(files))
    ensures forall name :: name in m ==> m[name] in files && m[name].name == name
  {
    if files == [] then map[]
    else
      var last := files[|files| - 1];
      var front := files[..|files| - 1];
      assert files == front + [last];
      assert FileNames(files) == FileNames(front) + [last.name];
      Index(front)[last.name := last]
  }

  /** The index holds the last declaration of each name. */
  lemma {:induction false} LastDeclarationWins(files: seq<Declared>, i: nat)
    requires i < |files| && forall j :: i < j < |files| ==> files[j].name != files[i].name
    ensures Index(files)[files[i].name] == files[i]
    decreases |files|
  {
    assert FileNames(files)[i] == files[i].name;
    if i < |files| - 1 {
      var front := files[..|files| - 1];
      assert FileNames(front)[i] == files[i].name;
      LastDeclarationWins(front, i);
    }
  }

  method IndexFiles(files: seq<Declared>) returns (m: map<string, Declared>)
    ensures m == Index(files)
  {
    m := map[];
    for i := 0 to |files|
      invariant m == Index(files[..i])
    {
      assert files[..i + 1][..i] == files[..i];
      m := m[files[i].name := files[i]];
    }
    assert files[..|files|] == files;
  }

  method CollectNames(names: seq<string>) returns (s: set<string>)
    ensures s == Elements(names)
  {
    s := {};
    for i := 0 to |names|
      invariant s == Elements(names[..i])
    {
      assert names[..i + 1] == names[..i] + [names[i]];
      s := s + {names[i]};
    }
    assert names[..|names|] == names;
  }

  // ---------------------------------------------------------------- counting

  /** A list has at most as many different elements as positions, and as many only without duplicates. */
  lemma {:induction false} ElementsCount(s: seq<string>)
    ensures |Elements(s)| <= |s|
    ensures |Elements(s)| == |s| <==> NoDuplicates(s)
    decreases |s|
  {
    if s == [] {
      assert Elements(s) == {};
    } else {
      var front, last := s[..|s| - 1], s[|s| - 1];
      ElementsCount(front);
      assert s == front + [last];
      assert Elements(s) == Elements(front) + {last};
      if last in Elements(front) {
        assert Elements(s) == Elements(front);
        var i :| 0 <= i < |front| && front[i] == last;
        assert s[i] == s[|s| - 1];
      } else {
        assert forall i :: 0 <= i < |front| ==> s[i] == front[i] && front[i] in Elements(front);
      }
    }
  }

  lemma SubsetCount(a: set<string>, b: set<string>)
    requires a <= b
    ensures |a| <= |b|
    ensures |a| == |b| ==> a == b
  {
    assert b == a + (b - a);
  }

  /** Entries that all have allowed names and are as many as the declarations are exactly the declared names. */
  lemma CountMeansExact(names: set<string>, all: seq<string>)
    requires names <= Elements(all)
    ensures |names| == |all| <==> names == Elements(all) && NoDuplicates(all)
  {
    ElementsCount(all);
    SubsetCount(names, Elements(all));
  }

  lemma {:induction false} SumGrows(nodes: seq<Node>, i: nat)
    requires i <= |nodes| && forall n :: n in nodes ==> n.size >= 0
    ensures 0 <= SizeSum(nodes[..i]) <= SizeSum(nodes)
    decreases |nodes|
  {
    if nodes != [] {
      var front := nodes[..|nodes| - 1];
      assert nodes[|nodes| - 1] in nodes;
      assert forall n :: n in front ==> n in nodes;
      if i < |nodes| {
        SumGrows(front, i);
        assert front[..i] == nodes[..i];
      } else {
        SumGrows(front, 0);
        assert nodes[..i] == nodes;
      }
    }
  }

  // ---------------------------------------------------------------- the flat walker

  /** The directory holds exactly the declared files and the private ones, nothing declared twice. */
  ghost predicate ExactOutput(m: Manifest, nodes: seq<Node>, digest: Digest) {
    && NoDuplicates(FileNames(m.files) + m.privateNames)
    && Names(nodes) == Elements(FileNames(m.files) + m.privateNames)
    && (forall n, d :: n in nodes && d in m.files && n.name == d.name ==> Delivers(n, d, digest))
    && (forall n :: n in nodes && n.name in m.privateNames ==> PrivateFile(n))
    && SizeSum(nodes) <= MAX_TOTAL_BYTES
  }

  /** What the flat walker tests. */
  ghost predicate FlatTests(m: Manifest, nodes: seq<Node>, digest: Digest) {
    && |nodes| == |m.files| + |m.privateNames|
    && (forall n :: n in nodes ==> FileOk(n, Index(m.files), Elements(m.privateNames), digest))
    && SizeSum(nodes) <= MAX_TOTAL_BYTES
  }

  lemma TestsMeanExact(m: Manifest, nodes: seq<Node>, digest: Digest)
    requires DistinctNames(nodes) && FlatTests(m, nodes, digest)
    ensures ExactOutput(m, nodes, digest)
  {
    hide Delivers, PrivateFile, SizeSum, NoDuplicates, Index;
    var all := FileNames(m.files) + m.privateNames;
    ElementsCount(NodeNames(nodes));
    assert Elements(all) == Elements(FileNames(m.files)) + Elements(m.privateNames);
    AllowedNames(nodes, Index(m.files), Elements(m.privateNames), digest);
    CountMeansExact(Names(nodes), all);
    TestsDeliver(m, nodes, digest);
  }

  lemma ExactMeansTests(m: Manifest, nodes: seq<Node>, digest: Digest)
    requires DistinctNames(nodes) && ExactOutput(m, nodes, digest)
    ensures FlatTests(m, nodes, digest)
  {
    hide Delivers, PrivateFile, SizeSum, NoDuplicates;
    var all := FileNames(m.files) + m.privateNames;
    assert |nodes| == |all| by {
      assert NoDuplicates(NodeNames(nodes));
      ElementsCount(NodeNames(nodes));
      CountMeansExact(Names(nodes), all);
    }
    forall n | n in nodes
      ensures FileOk(n, Index(m.files), Elements(m.privateNames), digest)
    {
      NameOf(nodes, n);
      assert n.name in all;
      if n.name !in FileNames(m.files) { assert n.name in m.privateNames; }
    }
  }

  lemma NameOf(nodes: seq<Node>, n: Node)
    requires n in nodes
    ensures n.name in Names(nodes)
  {
    var i :| 0 <= i < |nodes| && nodes[i] == n;
    assert NodeNames(nodes)[i] == n.name;
  }

  lemma TestsDeliver(m: Manifest, nodes: seq<Node>, digest: Digest)
    requires NoDuplicates(FileNames(m.files) + m.privateNames)
    requires forall n :: n in nodes ==> FileOk(n, Index(m.files), Elements(m.privateNames), digest)
    ensures forall n, d :: n in nodes && d in m.files && n.name == d.name ==> Delivers(n, d, digest)
    ensures forall n :: n in nodes && n.name in m.privateNames ==> PrivateFile(n)
  {
    hide Delivers, PrivateFile;
    forall n, d | n in nodes && d in m.files && n.name == d.name
      ensures Delivers(n, d, digest)
    {
      OnlyDeclaration(m, d);
    }
    forall n | n in nodes && n.name in m.privateNames
      ensures PrivateFile(n)
    {
      PrivateUndeclared(m, n.name);
    }
  }

  /** Without duplicates the index finds the declaration itself. */
  lemma OnlyDeclaration(m: Manifest, d: Declared)
    requires NoDuplicates(FileNames(m.files) + m.privateNames) && d in m.files
    ensures d.name in Index(m.files) && Index(m.files)[d.name] == d
  {
    hide Index;
    var all := FileNames(m.files) + m.privateNames;
    var i :| 0 <= i < |m.files| && m.files[i] == d;
    assert FileNames(m.files)[i] == d.name && d.name in Elements(FileNames(m.files));
    var e := Index(m.files)[d.name];
    var j :| 0 <= j < |m.files| && m.files[j] == e;
    assert all[i] == all[j] == d.name;
  }

  lemma PrivateUndeclared(m: Manifest, name: string)
    requires NoDuplicates(FileNames(m.files) + m.privateNames) && name in m.privateNames
    ensures name !in Index(m.files)
  {
    var all := FileNames(m.files) + m.privateNames;
    var i :| 0 <= i < |m.privateNames| && m.privateNames[i] == name;
    assert all[|m.files| + i] == name;
    forall j | 0 <= j < |m.files|
      ensures FileNames(m.files)[j] != name
    {
      assert all[j] == FileNames(m.files)[j];
    }
  }

  /** Accepts exactly the outputs that match the manifest; the total is the exact sum of the sizes, at most 2^30. */
  method ValidateProducerManifestOutput(m: Manifest, nodes: seq<Node>, digest: Digest) returns (r: Option<U64>)
    requires DistinctNames(nodes)
    ensures r.Some? <==> ExactOutput(m, nodes, digest)
    ensures r.Some? ==> r.value == SizeSum(nodes) <= 0x4000_0000
  {
    hide FileOk, ExactOutput, Index, Elements, SizeSum;
    if ExactOutput(m, nodes, digest) { ExactMeansTests(m, nodes, digest); }
    if FlatTests(m, nodes, digest) { TestsMeanExact(m, nodes, digest); }
    if |nodes| != |m.files| + |m.privateNames| { return None; }
    var expected := IndexFiles(m.files);
    var private := CollectNames(m.privateNames);
    var total: U64 := 0;
    EmptySum();
    for i := 0 to |nodes|
      invariant total == SizeSum(nodes[..i]) <= MAX_TOTAL_BYTES
      invariant forall j :: 0 <= j < i ==> FileOk(nodes[j], expected, private, digest)
    {
      var added := CheckFile(nodes[i], expected, private, digest, total);
      SumSnoc(nodes, i);
      if added.None? {
        Overflows(nodes, i, expected, private, digest);
        return None;
      }
      total := added.value;
    }
    assert nodes[..|nodes|] == nodes;
    r := Some(total);
  }

  lemma EmptySum()
    ensures SizeSum([]) == 0
  {
  }

  lemma SumSnoc(nodes: seq<Node>, i: nat)
    requires i < |nodes|
    ensures SizeSum(nodes[..i + 1]) == SizeSum(nodes[..i]) + nodes[i].size
  {
    assert nodes[..i + 1][..i] == nodes[..i];
  }

  /** Stopping at an entry is right: either it is not allowed, or the whole sum exceeds the limit too. */
  lemma Overflows(nodes: seq<Node>, i: nat, expected: map<string, Declared>, private: set<string>, digest: Digest)
    requires i < |nodes|
    requires !FileOk(nodes[i], expected, private, digest) || SizeSum(nodes[..i + 1]) > MAX_TOTAL_BYTES
    ensures (exists n :: n in nodes && !FileOk(n, expected, private, digest)) || SizeSum(nodes) > MAX_TOTAL_BYTES
  {
    if forall n :: n in nodes ==> FileOk(n, expected, private, digest) {
      assert nodes[i] in nodes;
      forall n | n in nodes
        ensures n.size >= 0
      {
      }
      SumGrows(nodes, i + 1);
    }
  }

  // ---------------------------------------------------------------- the nested walker

  function FilesIn(nodes: seq<Node>): (files: seq<Node>)
    ensures forall n :: n in files <==> n in nodes && !n.kind.Directory?
  {
    if nodes == [] then []
    else
      var last := nodes[|nodes| - 1];
      var front := FilesIn(nodes[..|nodes| - 1]);
      assert nodes == nodes[..|nodes| - 1] + [last];
      if last.kind.Directory? then front else front + [last]
  }

  /** No declared file is met twice. */
  ghost predicate MetOnce(files: seq<Node>, declared: set<string>) {
    forall i, j :: 0 <= i < j < |files| && files[i].name == files[j].name ==> files[i].name !in declared
  }

  /** The tree's files are exactly the declared and the private ones, at their paths. */
  ghost predicate ExactTree(m: Manifest, root: Kind, nodes: seq<Node>, digest: Digest) {
    && root.Directory?
    && (forall n :: n in nodes ==> n.stat)
    && Index(m.files).Keys !! Elements(m.privateNames)
    && Names(FilesIn(nodes)) == Index(m.files).Keys + Elements(m.privateNames)
    && MetOnce(FilesIn(nodes), Index(m.files).Keys)
    && (forall n :: n in FilesIn(nodes) ==> FileOk(n, Index(m.files), Elements(m.privateNames), digest))
    && SizeSum(FilesIn(nodes)) <= MAX_TOTAL_BYTES
  }

  lemma DisjointCount(names: set<string>, a: set<string>, b: set<string>)
    requires names <= a + b
    ensures |names| == |a| + |b| <==> names == a + b && a !! b
  {
    assert |a + b| == |a| + |b| - |a * b|;
    if a * b == {} {
      assert forall x :: x in a ==> x !in b || x in a * b;
    } else {
      var x :| x in a * b;
      assert x in a && x in b;
    }
    SubsetCount(names, a + b);
  }

  lemma NamesSnoc(nodes: seq<Node>, n: Node)
    ensures Names(nodes + [n]) == Names(nodes) + {n.name}
  {
    assert NodeNames(nodes + [n]) == NodeNames(nodes) + [n.name];
  }

  lemma FilesSnoc(nodes: seq<Node>, i: nat)
    requires i < |nodes|
    ensures FilesIn(nodes[..i + 1]) == if nodes[i].kind.Directory? then FilesIn(nodes[..i]) else FilesIn(nodes[..i]) + [nodes[i]]
  {
    assert nodes[..i + 1][..i] == nodes[..i];
  }

  lemma SumOfSnoc(nodes: seq<Node>, n: Node)
    ensures SizeSum(nodes + [n]) == SizeSum(nodes) + n.size
  {
    assert (nodes + [n])[..|nodes|] == nodes;
  }

  lemma {:induction false} FilesPrefix(nodes: seq<Node>, i: nat)
    requires i <= |nodes|
    ensures FilesIn(nodes[..i]) <= FilesIn(nodes)
    decreases |nodes|
  {
    if i == |nodes| {
      assert nodes[..i] == nodes;
    } else {
      var front := nodes[..|nodes| - 1];
      FilesPrefix(front, i);
      assert front[..i] == nodes[..i];
    }
  }

  lemma StopAtNode(m: Manifest, root: Kind, nodes: seq<Node>, i: nat, digest: Digest)
    requires i < |nodes| && (!nodes[i].stat || nodes[i].kind.Symlink?)
    ensures !ExactTree(m, root, nodes, digest)
  {
    hide Index, Elements, SizeSum, Names, MetOnce;
    assert nodes[i] in nodes;
    if nodes[i].kind.Symlink? {
      assert nodes[i] in FilesIn(nodes) && !FileOk(nodes[i], Index(m.files), Elements(m.privateNames), digest);
    }
  }

  lemma StopAtFile(m: Manifest, root: Kind, nodes: seq<Node>, i: nat, digest: Digest)
    requires i < |nodes| && !nodes[i].kind.Directory?
    requires
      || !FileOk(nodes[i], Index(m.files), Elements(m.privateNames), digest)
      || SizeSum(FilesIn(nodes[..i])) + nodes[i].size > MAX_TOTAL_BYTES
    ensures !ExactTree(m, root, nodes, digest)
  {
    hide FileOk, Index, Elements, SizeSum, Names, MetOnce, FilesIn;
    var k := |FilesIn(nodes[..i])|;
    FilesSnoc(nodes, i);
    FilesPrefix(nodes, i + 1);
    assert FilesIn(nodes)[k] == nodes[i] && FilesIn(nodes)[..k + 1] == FilesIn(nodes[..i + 1]);
    SumOfSnoc(FilesIn(nodes[..i]), nodes[i]);
    Overflows(FilesIn(nodes), k, Index(m.files), Elements(m.privateNames), digest);
  }

  lemma StopAtRepeat(m: Manifest, root: Kind, nodes: seq<Node>, i: nat, digest: Digest)
    requires i < |nodes| && !nodes[i].kind.Directory?
    requires nodes[i].name in Index(m.files) && nodes[i].name in Names(FilesIn(nodes[..i]))
    ensures !ExactTree(m, root, nodes, digest)
  {
    hide FileOk, Index, SizeSum, FilesIn;
    var front := FilesIn(nodes[..i]);
    FilesSnoc(nodes, i);
    FilesPrefix(nodes, i + 1);
    var j :| 0 <= j < |front| && NodeNames(front)[j] == nodes[i].name;
    assert FilesIn(nodes)[j].name == FilesIn(nodes)[|front|].name;
  }

  lemma MetOnceSnoc(files: seq<Node>, n: Node, declared: set<string>)
    requires MetOnce(files, declared) && (n.name in declared ==> n.name !in Names(files))
    ensures MetOnce(files + [n], declared)
  {
    forall i | 0 <= i < |files| && files[i].name == n.name
      ensures n.name !in declared
    {
      assert NodeNames(files)[i] == n.name;
    }
  }

  lemma AllowedNames(files: seq<Node>, expected: map<string, Declared>, private: set<string>, digest: Digest)
    requires forall n :: n in files ==> FileOk(n, expected, private, digest)
    ensures Names(files) <= expected.Keys + private
  {
    forall name | name in Names(files)
      ensures name in expected.Keys + private
    {
      var i :| 0 <= i < |files| && NodeNames(files)[i] == name;
      assert files[i] in files;
    }
  }

  /** The walker's state after the nodes seen so far. */
  ghost predicate Walked(nodes: seq<Node>, expected: map<string, Declared>, private: set<string>, digest: Digest,
                         seen: set<string>, total: U64)
  {
    && (forall n :: n in nodes ==> n.stat)
    && seen == Names(FilesIn(nodes))
    && total == SizeSum(FilesIn(nodes)) <= MAX_TOTAL_BYTES
    && MetOnce(FilesIn(nodes), expected.Keys)
    && forall n :: n in FilesIn(nodes) ==> FileOk(n, expected, private, digest)
  }

  lemma WalkStarts(expected: map<string, Declared>, private: set<string>, digest: Digest)
    ensures Walked([], expected, private, digest, {}, 0)
  {
  }

  lemma WalkAdds(nodes: seq<Node>, i: nat, expected: map<string, Declared>, private: set<string>, digest: Digest,
                 seen: set<string>, total: U64)
    requires i < |nodes| && nodes[i].stat && Walked(nodes[..i], expected, private, digest, seen, total)
    ensures nodes[i].kind.Directory? ==> Walked(nodes[..i + 1], expected, private, digest, seen, total)
    ensures
      var n := nodes[i];
      !n.kind.Directory? && FileOk(n, expected, private, digest) && 0 <= total + n.size <= MAX_TOTAL_BYTES &&
      (n.name in expected ==> n.name !in seen) ==>
        Walked(nodes[..i + 1], expected, private, digest, seen + {n.name}, total + n.size)
  {
    hide FileOk, SizeSum, FilesIn, Names, MetOnce;
    var n := nodes[i];
    var files := FilesIn(nodes[..i]);
    assert nodes[..i + 1] == nodes[..i] + [n];
    FilesSnoc(nodes, i);
    if !n.kind.Directory? {
      NamesSnoc(files, n);
      SumOfSnoc(files, n);
      if n.name in expected ==> n.name !in seen { MetOnceSnoc(files, n, expected.Keys); }
    }
  }

  /** At the end the tree is exact when as many names were met as are expected. */
  lemma WalkEnds(m: Manifest, nodes: seq<Node>, digest: Digest, seen: set<string>, total: U64)
    requires Walked(nodes, Index(m.files), Elements(m.privateNames), digest, seen, total)
    ensures |seen| == |Index(m.files).Keys| + |Elements(m.privateNames)| <==> ExactTree(m, Directory, nodes, digest)
  {
    hide FileOk, Index, Elements, SizeSum, FilesIn, Names, MetOnce;
    AllowedNames(FilesIn(nodes), Index(m.files), Elements(m.privateNames), digest);
    DisjointCount(seen, Index(m.files).Keys, Elements(m.privateNames));
  }

  /** The tree walker: accepts exactly the matching trees, with the same exact total. */
  method ValidateNestedProducerManifestOutput(m: Manifest, root: Kind, nodes: seq<Node>, digest: Digest) returns (r: Option<U64>)
    ensures r.Some? <==> ExactTree(m, root, nodes, digest)
    ensures r.Some? ==> r.value == SizeSum(FilesIn(nodes)) <= 0x4000_0000
  {
    if !root.Directory? { return None; }
    hide FileOk, Index, Elements, SizeSum, FilesIn, Names, MetOnce, ExactTree;
    var expected := IndexFiles(m.files);
    var private := CollectNames(m.privateNames);
    var seen: set<string> := {};
    var total: U64 := 0;
    WalkStarts(expected, private, digest);
    assert nodes[..0] == [];
    for i := 0 to |nodes|
      invariant Walked(nodes[..i], expected, private, digest, seen, total)
    {
      var n := nodes[i];
      if !n.stat || n.kind.Symlink? {
        StopAtNode(m, root, nodes, i, digest);
        return None;
      }
      WalkAdds(nodes, i, expected, private, digest, seen, total);
      if !n.kind.Directory? {
        if n.name in expected && n.name in seen {
          StopAtRepeat(m, root, nodes, i, digest);
          return None;
        }
        var added := CheckFile(n, expected, private, digest, total);
        if added.None? {
          StopAtFile(m, root, nodes, i, digest);
          return None;
        }
        seen := seen + {n.name};
        total := added.value;
      }
    }
    assert nodes[..|nodes|] == nodes;
    WalkEnds(m, nodes, digest, seen, total);
    if |seen| != |expected.Keys| + |private| { return None; }
    r := Some(total);
  }

  /** In an accepted tree every declared file is present, with the declared size and digest. */
  lemma TreeDelivers(m: Manifest, root: Kind, nodes: seq<Node>, digest: Digest, d: Declared) returns (n: Node)
    requires ExactTree(m, root, nodes, digest) && NoDuplicates(FileNames(m.files) + m.privateNames) && d in m.files
    ensures n in FilesIn(nodes) && n.name == d.name && Delivers(n, d, digest)
  {
    hide Delivers, PrivateFile, SizeSum, FilesIn;
    OnlyDeclaration(m, d);
    assert d.name in Names(FilesIn(nodes));
    var i :| 0 <= i < |FilesIn(nodes)| && NodeNames(FilesIn(nodes))[i] == d.name;
    n := FilesIn(nodes)[i];
  }

  // ---------------------------------------------------------------- submodules

  datatype Submodule = Submodule(path: string, commitSha: string)

  /** A clean relative path. */
  predicate SafePath(path: string) {
    && path != ""
    && Trim(path) == path
    && (forall c :: c in path ==> c != '\\' && c != '\0' && c != '\r' && c != '\n')
    && forall part :: part in Text.Split(path, '/') ==> part != "" && part != "." && part != ".."
  }

  predicate ValidSubmodule(s: Submodule) { SafePath(s.path) && Lifecycle.ValidSha(s.commitSha) }

  /** Safe paths are one or more parts between slashes, none of them empty or a dot name. */
  lemma SafePathExactly(path: string)
    ensures SafePath(path) <==>
      && Trim(path) == path
      && (forall c :: c in path ==> c != '\\' && c != '\0' && c != '\r' && c != '\n')
      && exists parts :: parts != [] && Join(parts, '/') == path && forall part :: part in parts ==> SafePart(part)
  {
    JoinSplit(path, '/');
    if parts :| parts != [] && Join(parts, '/') == path && forall part :: part in parts ==> SafePart(part) {
      SplitJoin(parts, '/');
      assert parts[0] in parts;
    }
    if SafePath(path) {
      assert forall part :: part in Text.Split(path, '/') ==> SafePart(part);
    }
  }

  lemma SafeIsSome()
    ensures !SafePath("")
  {}

  predicate SafePart(part: string) { part != "" && part != "." && part != ".." && '/' !in part }

  ghost predicate Ascending(list: seq<Submodule>) {
    forall i, j :: 0 <= i < j < |list| ==> CompareText(list[i].path, list[j].path) < 0
  }

  /** Of any two paths the earlier one is less at their first difference. */
  ghost predicate PathsAscend(list: seq<Submodule>) {
    forall i, j :: 0 <= i < j < |list| ==> PathBefore(list[i], list[j])
  }

  ghost predicate PathBefore(s: Submodule, t: Submodule) { exists k: nat :: LessAt(s.path, t.path, k) }

  lemma AscendingExactly(list: seq<Submodule>)
    ensures Ascending(list) <==> PathsAscend(list)
  {
    hide CompareText, LessAt;
    forall i, j | 0 <= i < j < |list|
      ensures CompareText(list[i].path, list[j].path) < 0 <==> PathBefore(list[i], list[j])
    {
      CompareTextExactly(list[i].path, list[j].path);
    }
  }

  /** Accepts exactly the lists of valid submodules in strictly ascending path order. */
  method ValidateProducerSubmodules(list: seq<Submodule>) returns (ok: bool)
    ensures ok <==> (forall s :: s in list ==> ValidSubmodule(s)) && Ascending(list)
    ensures ok <==> (forall s :: s in list ==> ValidSubmodule(s)) && PathsAscend(list)
  {
    hide CompareText, Lifecycle.ValidSha, PathsAscend, SafePath;
    AscendingExactly(list);
    SafeIsSome();
    var seen: set<string> := {};
    var previous := "";
    for i := 0 to |list|
      invariant forall p :: p in seen <==> exists j :: 0 <= j < i && list[j].path == p
      invariant previous == if i == 0 then "" else list[i - 1].path
      invariant i > 0 ==> previous != ""
      invariant forall s :: s in list[..i] ==> ValidSubmodule(s)
      invariant Ascending(list[..i])
    {
      var s := list[i];
      assert s in list;
      if !SafePath(s.path) { return false; }
      if s.path in seen {
        Repeated(list, i);
        return false;
      }
      if previous != "" && CompareText(previous, s.path) >= 0 { return false; }
      if !Lifecycle.ValidSha(s.commitSha) { return false; }
      AscendingSnoc(list, i);
      seen := seen + {s.path};
      previous := s.path;
    }
    assert list[..|list|] == list;
    ok := true;
  }

  lemma Repeated(list: seq<Submodule>, i: nat)
    requires i < |list| && exists j :: 0 <= j < i && list[j].path == list[i].path
    ensures !Ascending(list)
  {
    var j :| 0 <= j < i && list[j].path == list[i].path;
    TextOrder(list[j].path, list[i].path, "");
  }

  lemma AscendingSnoc(list: seq<Submodule>, i: nat)
    requires i < |list| && Ascending(list[..i]) && forall s :: s in list[..i + 1] ==> ValidSubmodule(s)
    requires i > 0 ==> CompareText(list[i - 1].path, list[i].path) < 0
    ensures Ascending(list[..i + 1])
  {
    hide CompareText;
    forall j | 0 <= j < i
      ensures CompareText(list[j].path, list[i].path) < 0
    {
      if j < i - 1 {
        assert list[..i][j] == list[j] && list[..i][i - 1] == list[i - 1];
        TextOrder(list[j].path, list[i - 1].path, list[i].path);
      }
    }
    assert forall j :: 0 <= j < i ==> list[..i + 1][j] == list[..i][j];
  }

  /** An accepted list is determined by its submodules: there is one order to write them in. */
  lemma {:induction false} SubmodulesCanonical(a: seq<Submodule>, b: seq<Submodule>)
    requires Ascending(a) && Ascending(b) && forall s :: s in a <==> s in b
    ensures a == b
    decreases |a|
  {
    hide CompareText;
    if a == [] {
      if b != [] { HasMember(b); }
    } else {
      assert a[0] in a && a[0] in b;
      assert b[0] in b && b[0] in a;
      FirstIsLeast(a, b);
      assert a == [a[0]] + a[1..] && b == [b[0]] + b[1..];
      TailDiffers(a);
      TailDiffers(b);
      forall s
        ensures s in a[1..] <==> s in b[1..]
      {
        assert s in a <==> s == a[0] || s in a[1..];
        assert s in b <==> s == b[0] || s in b[1..];
      }
      SubmodulesCanonical(a[1..], b[1..]);
    }
  }

  lemma HasMember(list: seq<Submodule>)
    requires list != []
    ensures exists s :: s in list
  {
    assert list[0] in list;
  }

  lemma FirstIsLeast(a: seq<Submodule>, b: seq<Submodule>)
    requires a != [] && b != [] && Ascending(a) && Ascending(b) && a[0] in b && b[0] in a
    ensures a[0] == b[0]
  {
    hide CompareText;
    var i :| 0 <= i < |b| && b[i] == a[0];
    var j :| 0 <= j < |a| && a[j] == b[0];
    if i > 0 && j > 0 { TextOrder(a[0].path, b[0].path, ""); }
  }

  lemma TailDiffers(a: seq<Submodule>)
    requires a != [] && Ascending(a)
    ensures a[0] !in a[1..]
  {
    if a[0] in a[1..] {
      var i :| 0 <= i < |a[1..]| && a[1..][i] == a[0];
      assert a[i + 1] == a[0];
      TextOrder(a[0].path, a[0].path, "");
    }
  }
}
