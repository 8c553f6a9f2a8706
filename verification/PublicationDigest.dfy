/**
 The publication digest: the bytes fed to the hash are a length-prefixed encoding of the build's
 identity followed by the output files in name order.  The hash itself is not modelled; the bytes
 are proved to determine the identity and the files, and not to depend on listing order.
 */
module PublicationDigest {
  import opened Octets
  import opened Wrappers

  type Byte = b: int | 0 <= b < 256
  type Bytes = seq<Byte>
  const TWO64 := 0x1_0000_0000_0000_0000
  type U64 = n: int | 0 <= n < TWO64
  type I64 = n: int | -0x8000_0000_0000_0000 <= n < 0x8000_0000_0000_0000

  // ---------------------------------------------------------------- fixed-width and length-prefixed fields

  function BigEndian(v: nat, width: nat): (r: Bytes)
    ensures |r| == width
  {
    if width == 0 then [] else BigEndian(v / 256, width - 1) + [v % 256]
  }

  lemma {:induction false} BigEndianValue(v: nat, width: nat)
    requires v < Pow256(width)
    ensures Base256(BigEndian(v, width)) == v
    decreases width
  {
    if width > 0 {
      BigEndianValue(v / 256, width - 1);
      var bs := BigEndian(v, width);
      assert bs[..|bs| - 1] == BigEndian(v / 256, width - 1);
    }
  }

  /** writeManifestUint64. */
  function Uint64(v: U64): (r: Bytes)
    ensures |r| == 8
  {
    BigEndian(v, 8)
  }

  /** Eight bytes, most significant first. */
  lemma Uint64Value(v: U64)
    ensures |Uint64(v)| == 8 && Base256(Uint64(v)) == v
  {
    assert Pow256(8) == TWO64;
    BigEndianValue(v, 8);
  }

  lemma Uint64Injective(v: U64, w: U64)
    requires Uint64(v) == Uint64(w)
    ensures v == w
  {
    Uint64Value(v);
    Uint64Value(w);
  }

  /** The conversion of a signed column to uint64 wraps around. */
  function Wrap(v: I64): U64 { if v < 0 then v + TWO64 else v }

  type Text = s: Bytes | |s| < TWO64

  /** writeManifestString. */
  function String(s: Text): Bytes { Uint64(|s|) + s }

  lemma Split(a: Bytes, x: Bytes, b: Bytes, y: Bytes)
    requires |a| == |b| && a + x == b + y
    ensures a == b && x == y
  {
    assert (a + x)[..|a|] == a && (a + x)[|a|..] == x;
    assert (b + y)[..|b|] == b && (b + y)[|b|..] == y;
  }

  lemma StringSplits(s: Text, x: Bytes, t: Text, y: Bytes)
    requires String(s) + x == String(t) + y
    ensures s == t && x == y
  {
    assert String(s) + x == Uint64(|s|) + (s + x) && String(t) + y == Uint64(|t|) + (t + y);
    Split(Uint64(|s|), s + x, Uint64(|t|), t + y);
    Uint64Injective(|s|, |t|);
    Split(s, x, t, y);
  }

  function Strings(ss: seq<Text>): Bytes {
    if ss == [] then [] else String(ss[0]) + Strings(ss[1..])
  }

  lemma Associate(a: Bytes, b: Bytes, c: Bytes)
    ensures (a + b) + c == a + (b + c)
  {}

  lemma {:induction false} StringsSplit(ss: seq<Text>, x: Bytes, ts: seq<Text>, y: Bytes)
    requires |ss| == |ts| && Strings(ss) + x == Strings(ts) + y
    ensures ss == ts && x == y
    decreases |ss|
  {
    hide String;
    if ss == [] {
      assert [] + x == x && [] + y == y;
    } else {
      Associate(String(ss[0]), Strings(ss[1..]), x);
      Associate(String(ts[0]), Strings(ts[1..]), y);
      StringSplits(ss[0], Strings(ss[1..]) + x, ts[0], Strings(ts[1..]) + y);
      StringsSplit(ss[1..], x, ts[1..], y);
    }
  }

  // ---------------------------------------------------------------- the preimage

  datatype Build = Build(id: U64, runId: I64, artifactId: I64, provider: Text, repo: Text, workflow: Text, selector: Text,
                         ref: Text, artifactName: Text, runUrl: Text, htmlUrl: Text, sourceSha: Text, platform: Text,
                         appName: Text, version: Text, buildRef: Text, sourceTag: Text, assetsRelease: Text,
                         assets: Text, releaseId: I64)

  datatype File = File(name: Text, content: Text)

  function Context(): Text {
    var s := "github-artifact-canonical-output-v2";
    seq(|s|, i requires 0 <= i < |s| => s[i] as int % 256)
  }

  function Identity(b: Build): seq<Text> {
    [b.provider, b.repo, b.workflow, b.selector, b.ref, b.artifactName, b.runUrl, b.htmlUrl, b.sourceSha,
     b.platform, b.appName, b.version, b.buildRef, b.sourceTag, b.assetsRelease, b.assets]
  }

  function Header(b: Build): Bytes {
    String(Context()) + Uint64(b.id) + Uint64(Wrap(b.runId)) + Uint64(Wrap(b.artifactId))
    + Strings(Identity(b)) + Uint64(Wrap(b.releaseId))
  }

  function Files(fs: seq<File>): Bytes {
    if fs == [] then [] else String(fs[0].name) + String(fs[0].content) + Files(fs[1..])
  }

  function Preimage(b: Build, fs: seq<File>): Bytes { Header(b) + Files(fs) }

  lemma Regroup(a: Bytes, b: Bytes, c: Bytes, d: Bytes, e: Bytes, f: Bytes, x: Bytes)
    ensures a + b + c + d + e + f + x == a + (b + (c + (d + (e + (f + x)))))
  {}

  lemma WrappedSplits(v: I64, x: Bytes, w: I64, y: Bytes)
    requires Uint64(Wrap(v)) + x == Uint64(Wrap(w)) + y
    ensures v == w && x == y
  {
    Split(Uint64(Wrap(v)), x, Uint64(Wrap(w)), y);
    Uint64Injective(Wrap(v), Wrap(w));
  }

  lemma HeaderSplits(b: Build, x: Bytes, c: Build, y: Bytes)
    requires Header(b) + x == Header(c) + y
    ensures b == c && x == y
  {
    assert |Identity(b)| == |Identity(c)|;
    hide Uint64, String, Strings, Identity, Context, Wrap;
    var ctx := String(Context());
    var b4, c4 := Uint64(Wrap(b.releaseId)) + x, Uint64(Wrap(c.releaseId)) + y;
    var b3, c3 := Strings(Identity(b)) + b4, Strings(Identity(c)) + c4;
    var b2, c2 := Uint64(Wrap(b.artifactId)) + b3, Uint64(Wrap(c.artifactId)) + c3;
    var b1, c1 := Uint64(Wrap(b.runId)) + b2, Uint64(Wrap(c.runId)) + c2;
    Regroup(ctx, Uint64(b.id), Uint64(Wrap(b.runId)), Uint64(Wrap(b.artifactId)), Strings(Identity(b)), Uint64(Wrap(b.releaseId)), x);
    Regroup(ctx, Uint64(c.id), Uint64(Wrap(c.runId)), Uint64(Wrap(c.artifactId)), Strings(Identity(c)), Uint64(Wrap(c.releaseId)), y);
    Split(ctx, Uint64(b.id) + b1, ctx, Uint64(c.id) + c1);
    Split(Uint64(b.id), b1, Uint64(c.id), c1);
    Uint64Injective(b.id, c.id);
    WrappedSplits(b.runId, b2, c.runId, c2);
    WrappedSplits(b.artifactId, b3, c.artifactId, c3);
    StringsSplit(Identity(b), b4, Identity(c), c4);
    WrappedSplits(b.releaseId, x, c.releaseId, y);
    SameIdentity(b, c);
  }

  lemma SameIdentity(b: Build, c: Build)
    requires Identity(b) == Identity(c)
    ensures b == c.(id := b.id, runId := b.runId, artifactId := b.artifactId, releaseId := b.releaseId)
  {
    var i, j := Identity(b), Identity(c);
    assert i[0] == j[0] && i[1] == j[1] && i[2] == j[2] && i[3] == j[3] && i[4] == j[4] && i[5] == j[5] && i[6] == j[6] && i[7] == j[7];
    assert i[8] == j[8] && i[9] == j[9] && i[10] == j[10] && i[11] == j[11] && i[12] == j[12] && i[13] == j[13] && i[14] == j[14] && i[15] == j[15];
  }

  lemma FilesNonEmpty(fs: seq<File>)
    requires fs != []
    ensures |Files(fs)| >= 16
  {
    assert |String(fs[0].name)| >= 8 && |String(fs[0].content)| >= 8;
  }

  lemma FilesHead(fs: seq<File>)
    requires fs != []
    ensures Files(fs) == String(fs[0].name) + (String(fs[0].content) + Files(fs[1..]))
  {
    hide String;
  }

  /** No file count is written, and none is needed. */
  lemma {:induction false} FilesInjective(fs: seq<File>, gs: seq<File>)
    requires Files(fs) == Files(gs)
    ensures fs == gs
    decreases |fs|
  {
    if fs == [] || gs == [] {
      if fs != [] { FilesNonEmpty(fs); }
      if gs != [] { FilesNonEmpty(gs); }
    } else {
      hide String, Files;
      FilesHead(fs);
      FilesHead(gs);
      StringSplits(fs[0].name, String(fs[0].content) + Files(fs[1..]), gs[0].name, String(gs[0].content) + Files(gs[1..]));
      StringSplits(fs[0].content, Files(fs[1..]), gs[0].content, Files(gs[1..]));
      FilesInjective(fs[1..], gs[1..]);
      assert fs == [fs[0]] + fs[1..] && gs == [gs[0]] + gs[1..];
    }
  }

  /** Equal preimages come from the same build with the same files. */
  lemma PreimageInjective(b: Build, fs: seq<File>, c: Build, gs: seq<File>)
    requires Preimage(b, fs) == Preimage(c, gs)
    ensures b == c && fs == gs
  {
    HeaderSplits(b, Files(fs), c, Files(gs));
    FilesInjective(fs, gs);
  }

  // ---------------------------------------------------------------- name order

  predicate Before(a: Bytes, b: Bytes) {
    if b == [] then false
    else if a == [] then true
    else a[0] < b[0] || (a[0] == b[0] && Before(a[1..], b[1..]))
  }

  lemma {:induction false} BeforeTotal(a: Bytes, b: Bytes)
    ensures a == b || Before(a, b) || Before(b, a)
    ensures !(Before(a, b) && (Before(b, a) || a == b))
    decreases |a|
  {
    if a != [] && b != [] {
      BeforeTotal(a[1..], b[1..]);
      assert a == [a[0]] + a[1..] && b == [b[0]] + b[1..];
    }
  }

  lemma {:induction false} BeforeTransitive(a: Bytes, b: Bytes, c: Bytes)
    requires Before(a, b) && Before(b, c)
    ensures Before(a, c)
    decreases |a|
  {
    if a != [] && a[0] == b[0] == c[0] {
      BeforeTransitive(a[1..], b[1..], c[1..]);
    }
  }

  /** Byte order of names: the first byte that differs decides, and a name comes after its prefixes. */
  ghost predicate NameBefore(a: Bytes, b: Bytes) { exists k: nat :: DifferAt(a, b, k) }

  ghost predicate DifferAt(a: Bytes, b: Bytes, k: nat) {
    k <= |a| && k < |b| && a[..k] == b[..k] && (k == |a| || a[k] < b[k])
  }

  lemma {:induction false} BeforeExactly(a: Bytes, b: Bytes)
    ensures Before(a, b) <==> NameBefore(a, b)
    decreases |a|
  {
    if b == [] {
    } else if a == [] {
      assert DifferAt(a, b, 0);
    } else if a[0] != b[0] {
      if a[0] < b[0] { assert DifferAt(a, b, 0); }
      forall k: nat | k > 0
        ensures !DifferAt(a, b, k)
      {
        if k <= |a| && k <= |b| { assert a[..k][0] == a[0] && b[..k][0] == b[0]; }
      }
    } else {
      BeforeExactly(a[1..], b[1..]);
      if k: nat :| DifferAt(a[1..], b[1..], k) {
        assert a[..k + 1] == [a[0]] + a[1..][..k] && b[..k + 1] == [b[0]] + b[1..][..k];
        assert DifferAt(a, b, k + 1);
      }
      if k: nat :| DifferAt(a, b, k) {
        assert k > 0;
        assert a[1..][..k - 1] == a[..k][1..] && b[1..][..k - 1] == b[..k][1..];
        assert DifferAt(a[1..], b[1..], k - 1);
      }
    }
  }

  /** The effect of sort.Slice by name. */
  function Insert(f: File, fs: seq<File>): seq<File> {
    if fs == [] || !Before(fs[0].name, f.name) then [f] + fs else [fs[0]] + Insert(f, fs[1..])
  }

  function SortByName(fs: seq<File>): seq<File> {
    if fs == [] then [] else Insert(fs[0], SortByName(fs[1..]))
  }

  ghost predicate Sorted(fs: seq<File>) {
    forall i, j :: 0 <= i < j < |fs| ==> Before(fs[i].name, fs[j].name)
  }

  lemma SortedCons(f: File, fs: seq<File>)
    requires Sorted(fs) && forall g :: g in fs ==> Before(f.name, g.name)
    ensures Sorted([f] + fs)
  {
    hide Before;
  }

  lemma SortedHead(fs: seq<File>)
    requires Sorted(fs) && fs != []
    ensures Sorted(fs[1..]) && forall g :: g in fs[1..] ==> Before(fs[0].name, g.name) && g in fs
  {
    hide Before;
  }

  lemma {:induction false} InsertSorts(f: File, fs: seq<File>)
    requires Sorted(fs) && forall g :: g in fs ==> g.name != f.name
    ensures Sorted(Insert(f, fs)) && multiset(Insert(f, fs)) == multiset(fs) + multiset{f}
    decreases |fs|
  {
    hide Before, Sorted;
    if fs == [] {
      SortedCons(f, fs);
    } else {
      SortedHead(fs);
      assert fs[0] in fs && fs == [fs[0]] + fs[1..];
      BeforeTotal(fs[0].name, f.name);
      if Before(fs[0].name, f.name) {
        InsertSorts(f, fs[1..]);
        var rest := Insert(f, fs[1..]);
        forall g | g in rest ensures Before(fs[0].name, g.name) {
          assert g in multiset(rest);
        }
        SortedCons(fs[0], rest);
      } else {
        forall g | g in fs[1..] { BeforeTransitive(f.name, fs[0].name, g.name); }
        SortedCons(f, fs);
      }
    }
  }

  lemma {:induction false} SortSorts(fs: seq<File>)
    requires forall i, j :: 0 <= i < j < |fs| ==> fs[i].name != fs[j].name
    ensures Sorted(SortByName(fs)) && multiset(SortByName(fs)) == multiset(fs)
    decreases |fs|
  {
    if fs != [] {
      hide Sorted, Insert;
      SortSorts(fs[1..]);
      assert fs == [fs[0]] + fs[1..];
      forall g | g in SortByName(fs[1..]) ensures g.name != fs[0].name {
        assert g in multiset(SortByName(fs[1..]));
        assert g in multiset(fs[1..]);
      }
      InsertSorts(fs[0], SortByName(fs[1..]));
    }
  }

  ghost predicate Ascending(fs: seq<File>) { forall i, j :: 0 <= i < j < |fs| ==> NameBefore(fs[i].name, fs[j].name) }

  /** Sorting lists the same files in ascending byte order of their names. */
  lemma SortAscends(fs: seq<File>)
    requires forall i, j :: 0 <= i < j < |fs| ==> fs[i].name != fs[j].name
    ensures multiset(SortByName(fs)) == multiset(fs) && Ascending(SortByName(fs))
  {
    hide Before, NameBefore;
    SortSorts(fs);
    var sorted := SortByName(fs);
    forall i, j | 0 <= i < j < |sorted|
      ensures NameBefore(sorted[i].name, sorted[j].name)
    {
      BeforeExactly(sorted[i].name, sorted[j].name);
    }
  }

  lemma SameHead(fs: seq<File>, gs: seq<File>)
    requires Sorted(fs) && Sorted(gs) && multiset(fs) == multiset(gs) && fs != [] && gs != []
    ensures fs[0] == gs[0]
  {
    hide Before;
    assert fs[0] in multiset(gs) && gs[0] in multiset(fs);
    var i :| 0 <= i < |gs| && gs[i] == fs[0];
    var j :| 0 <= j < |fs| && fs[j] == gs[0];
    BeforeTotal(fs[0].name, gs[0].name);
  }

  lemma {:induction false} SortedUnique(fs: seq<File>, gs: seq<File>)
    requires Sorted(fs) && Sorted(gs) && multiset(fs) == multiset(gs)
    ensures fs == gs
    decreases |fs|
  {
    assert |multiset(fs)| == |fs| && |multiset(gs)| == |gs|;
    if fs != [] {
      hide Before;
      SameHead(fs, gs);
      assert fs == [fs[0]] + fs[1..] && gs == [gs[0]] + gs[1..];
      assert multiset(fs[1..]) == multiset(fs) - multiset{fs[0]};
      assert multiset(gs[1..]) == multiset(gs) - multiset{gs[0]};
      SortedUnique(fs[1..], gs[1..]);
    }
  }

  /** Whatever order the directory lists its files in, the preimage is the same. */
  lemma ListingOrderIrrelevant(b: Build, fs: seq<File>, gs: seq<File>)
    requires multiset(fs) == multiset(gs)
    requires forall i, j :: 0 <= i < j < |fs| ==> fs[i].name != fs[j].name
    requires forall i, j :: 0 <= i < j < |gs| ==> gs[i].name != gs[j].name
    ensures Preimage(b, SortByName(fs)) == Preimage(b, SortByName(gs))
  {
    SortSorts(fs);
    SortSorts(gs);
    SortedUnique(SortByName(fs), SortByName(gs));
  }

  // ---------------------------------------------------------------- computing it from a directory

  const MAX_FILES := 4096
  const MAX_FILE_BYTES: U64 := 0x2000_0000
  const MAX_TOTAL_BYTES: U64 := 0x4000_0000

  /** A directory entry: its listed size, what opening it shows, and the outcome of the name checks. */
  datatype Entry = Entry(name: Text, regular: bool, size: I64, openedSize: I64, content: Bytes,
                         validName: bool, key: Bytes, isExecutable: bool)

  predicate Readable(e: Entry) { e.openedSize == e.size && |e.content| == e.size }

  function TotalSize(es: seq<Entry>): int {
    if es == [] then 0 else TotalSize(es[..|es| - 1]) + es[|es| - 1].size
  }

  ghost predicate DistinctKeys(es: seq<Entry>) {
    forall i, j :: 0 <= i < j < |es| ==> es[i].key != es[j].key
  }

  ghost predicate Acceptable(es: seq<Entry>, windows: bool) {
    && (forall e :: e in es ==> e.regular && 0 <= e.size <= MAX_FILE_BYTES && (windows ==> e.validName))
    && (windows ==> DistinctKeys(es))
    && TotalSize(es) <= MAX_TOTAL_BYTES
  }

  /** Everything the computation checks. */
  ghost predicate Publishable(es: seq<Entry>, windows: bool) {
    && 0 < |es| <= MAX_FILES && Acceptable(es, windows)
    && (windows ==> exists e :: e in es && e.isExecutable)
    && (forall e :: e in es ==> Readable(e))
  }

  function FileOf(e: Entry): File
    requires |e.content| < TWO64
  {
    File(e.name, e.content)
  }

  function FilesOf(es: seq<Entry>): (fs: seq<File>)
    requires forall e :: e in es ==> |e.content| < TWO64
    ensures |fs| == |es| && forall i :: 0 <= i < |es| ==> fs[i] == FileOf(es[i])
  {
    seq(|es|, i requires 0 <= i < |es| => FileOf(es[i]))
  }

  lemma {:induction false} TotalNonNegative(es: seq<Entry>)
    requires forall e :: e in es ==> e.size >= 0
    ensures TotalSize(es) >= 0
    decreases |es|
  {
    if es != [] { TotalNonNegative(es[..|es| - 1]); }
  }

  lemma {:induction false} TotalMonotone(es: seq<Entry>, i: nat)
    requires i <= |es| && forall e :: e in es ==> e.size >= 0
    ensures TotalSize(es[..i]) <= TotalSize(es)
    decreases |es| - i
  {
    if i == |es| {
      assert es[..i] == es;
    } else {
      assert es[..i + 1][..i] == es[..i];
      TotalMonotone(es, i + 1);
    }
  }

  function Keys(es: seq<Entry>): set<Bytes> { set e | e in es :: e.key }

  /** One more entry is acceptable when it is so by itself, its key is new and the total stays in bounds. */
  predicate Admits(es: seq<Entry>, e: Entry, windows: bool) {
    && e.regular && 0 <= e.size <= MAX_FILE_BYTES
    && (windows ==> e.validName && e.key !in Keys(es))
    && TotalSize(es) + e.size <= MAX_TOTAL_BYTES
  }

  lemma KeysSnoc(es: seq<Entry>, e: Entry)
    ensures Keys(es + [e]) == Keys(es) + {e.key}
    ensures DistinctKeys(es + [e]) <==> DistinctKeys(es) && e.key !in Keys(es)
  {
    var next := es + [e];
    if e.key in Keys(es) {
      var j :| 0 <= j < |es| && es[j].key == e.key;
      assert next[j].key == next[|es|].key;
    }
    if DistinctKeys(next) {
      assert forall i :: 0 <= i < |es| ==> es[i] == next[i];
    }
  }

  lemma AcceptAppend(es: seq<Entry>, e: Entry, windows: bool)
    requires Acceptable(es, windows)
    ensures Admits(es, e, windows) <==> Acceptable(es + [e], windows)
    ensures TotalSize(es + [e]) == TotalSize(es) + e.size && TotalSize(es) >= 0
  {
    hide Keys, DistinctKeys;
    TotalNonNegative(es);
    KeysSnoc(es, e);
    assert (es + [e])[..|es|] == es;
    assert forall x :: x in es + [e] <==> x in es || x == e;
  }

  lemma AcceptPrefix(es: seq<Entry>, i: nat, windows: bool)
    requires i <= |es| && Acceptable(es, windows)
    ensures Acceptable(es[..i], windows)
  {
    hide DistinctKeys, TotalSize;
    TotalMonotone(es, i);
    DistinctPrefix(es, i);
  }

  lemma AcceptSnoc(es: seq<Entry>, i: nat, windows: bool)
    requires i < |es| && Acceptable(es[..i], windows)
    ensures Admits(es[..i], es[i], windows) <==> Acceptable(es[..i + 1], windows)
    ensures TotalSize(es[..i + 1]) == TotalSize(es[..i]) + es[i].size && TotalSize(es[..i]) >= 0
    ensures Keys(es[..i + 1]) == Keys(es[..i]) + {es[i].key}
    ensures Acceptable(es, windows) ==> Acceptable(es[..i + 1], windows)
  {
    hide Keys, Acceptable, Admits, TotalSize;
    assert es[..i + 1] == es[..i] + [es[i]];
    AcceptAppend(es[..i], es[i], windows);
    KeysSnoc(es[..i], es[i]);
    if Acceptable(es, windows) { AcceptPrefix(es, i + 1, windows); }
  }

  lemma DistinctPrefix(es: seq<Entry>, i: nat)
    requires i <= |es|
    ensures DistinctKeys(es) ==> DistinctKeys(es[..i])
  {}

  class Hasher {
    var written: Bytes

    constructor ()
      ensures written == []
    {
      written := [];
    }

    method WriteUint64(v: U64)
      modifies this
      ensures written == old(written) + Uint64(v)
    {
      written := written + BigEndian(v, 8);
    }

    method WriteString(s: Text)
      modifies this
      ensures written == old(written) + String(s)
    {
      WriteUint64(|s|);
      written := written + s;
    }
  }

  lemma {:induction false} StringsSnoc(ss: seq<Text>, i: nat)
    requires i < |ss|
    ensures Strings(ss[..i + 1]) == Strings(ss[..i]) + String(ss[i])
    decreases i
  {
    hide String;
    if i == 0 {
      assert ss[..1] == [ss[0]] && ss[..1][1..] == [];
    } else {
      StringsSnoc(ss[1..], i - 1);
      assert ss[..i + 1][1..] == ss[1..][..i] && ss[..i][1..] == ss[1..][..i - 1];
      Associate(String(ss[0]), Strings(ss[1..][..i - 1]), String(ss[i]));
    }
  }

  lemma {:induction false} FilesSnoc(fs: seq<File>, i: nat)
    requires i < |fs|
    ensures Files(fs[..i + 1]) == Files(fs[..i]) + (String(fs[i].name) + String(fs[i].content))
    decreases i
  {
    hide String;
    if i == 0 {
      assert fs[..1] == [fs[0]] && fs[..1][1..] == [];
    } else {
      FilesSnoc(fs[1..], i - 1);
      assert fs[..i + 1][1..] == fs[1..][..i] && fs[..i][1..] == fs[1..][..i - 1];
      var head := String(fs[0].name) + String(fs[0].content);
      Associate(head, Files(fs[1..][..i - 1]), String(fs[i].name) + String(fs[i].content));
    }
  }

  /** The size of the last listed executable, if there is one. */
  ghost predicate ExecutableIs(es: seq<Entry>, size: Option<I64>) {
    if size.None? then forall e :: e in es ==> !e.isExecutable
    else
      exists i :: 0 <= i < |es| && es[i].isExecutable && es[i].size == size.value &&
                  forall j :: i < j < |es| ==> !es[j].isExecutable
  }

  lemma ExecutableSnoc(es: seq<Entry>, i: nat, size: Option<I64>)
    requires i < |es| && ExecutableIs(es[..i], size)
    ensures ExecutableIs(es[..i + 1], if es[i].isExecutable then Some(es[i].size) else size)
  {
    var all := es[..i + 1];
    assert all == es[..i] + [es[i]];
    if es[i].isExecutable {
      assert all[i].isExecutable;
    } else if size.Some? {
      var k :| 0 <= k < i && es[..i][k].isExecutable && es[..i][k].size == size.value &&
               forall j :: k < j < i ==> !es[..i][j].isExecutable;
      assert all[k] == es[..i][k];
      forall j | k < j < |all|
        ensures !all[j].isExecutable
      {
        if j < i { assert all[j] == es[..i][j]; }
      }
    }
  }

  /** The loop over the listing: limits, names and the running total, which never wraps around. */
  method CheckEntries(entries: seq<Entry>, windows: bool) returns (ok: bool, executable: Option<I64>)
    ensures ok <==> Acceptable(entries, windows)
    ensures ok ==> ExecutableIs(entries, executable)
  {
    hide Acceptable, TotalSize, Keys, ExecutableIs;
    executable := None;
    var seen: set<Bytes> := {};
    var total: U64 := 0;
    var i := 0;
    EmptyAcceptable(entries, windows);
    assert ExecutableIs(entries[..0], None) by { NoExecutable(); }
    while i < |entries|
      invariant 0 <= i <= |entries| && Acceptable(entries[..i], windows)
      invariant total == TotalSize(entries[..i]) && seen == Keys(entries[..i])
      invariant ExecutableIs(entries[..i], executable)
    {
      var e := entries[i];
      AcceptSnoc(entries, i, windows);
      ExecutableSnoc(entries, i, executable);
      assert entries[..i + 1] == entries[..i] + [e];
      if windows && (!e.validName || e.key in seen) { return false, None; }
      if !e.regular || e.size < 0 || e.size > MAX_FILE_BYTES || total > MAX_TOTAL_BYTES - e.size { return false, None; }
      seen := seen + {e.key};
      total := total + e.size;
      if e.isExecutable { executable := Some(e.size); }
      i := i + 1;
    }
    assert entries[..i] == entries;
    return true, executable;
  }

  lemma NoExecutable()
    ensures ExecutableIs([], None)
  {}

  lemma EmptyAcceptable(es: seq<Entry>, windows: bool)
    ensures Acceptable(es[..0], windows) && TotalSize(es[..0]) == 0 && Keys(es[..0]) == {}
  {}

  /** publishedOutputManifest: succeeds exactly on a publishable directory, and then feeds the hash the
      preimage of the build and its files in ascending byte order of their names, and answers the size of the executable, or 0.
      `checks` is the outcome of the directory and application-name checks. */
  method PublishedOutputManifest(entries: seq<Entry>, b: Build, windows: bool, checks: bool) returns (result: Option<(I64, Bytes)>)
    requires forall i, j :: 0 <= i < j < |entries| ==> entries[i].name != entries[j].name
    ensures result.Some? <==> checks && Publishable(entries, windows)
    ensures result.Some? ==>
      ExecutableIs(entries, Some(result.value.0)) || (result.value.0 == 0 && ExecutableIs(entries, None))
    ensures result.Some? ==>
      (forall e :: e in entries ==> |e.content| < TWO64) && result.value.1 == Preimage(b, SortByName(FilesOf(entries)))
    ensures result.Some? ==>
      exists files :: multiset(files) == multiset(FilesOf(entries)) && Ascending(files) && result.value.1 == Preimage(b, files)
  {
    hide Ascending, Acceptable, Preimage, Header, Files, Strings, String, Uint64, SortByName;
    if |entries| == 0 || |entries| > MAX_FILES || !checks { return None; }
    var ok, executable := CheckEntries(entries, windows);
    if !ok { return None; }
    if windows && executable.None? { return None; }
    var i := 0;
    while i < |entries|
      invariant 0 <= i <= |entries| && forall e :: e in entries[..i] ==> Readable(e)
    {
      if entries[i].openedSize != entries[i].size || |entries[i].content| != entries[i].size {
        assert entries[i] in entries;
        return None;
      }
      assert entries[..i + 1] == entries[..i] + [entries[i]];
      i := i + 1;
    }
    assert entries[..i] == entries;
    var files := SortByName(FilesOf(entries));
    SortAscends(FilesOf(entries));
    var written := WriteManifest(b, files);
    return Some((if executable.Some? then executable.value else 0, written));
  }

  /** The writes into the running hash, in order. */
  method WriteManifest(b: Build, files: seq<File>) returns (written: Bytes)
    ensures written == Preimage(b, files)
  {
    hide Header, Identity, Strings, String, Uint64, Files;
    var hasher := new Hasher();
    WriteHeader(hasher, b);
    var i := 0;
    assert Files(files[..0]) == [] by { NoFiles(files[..0]); }
    while i < |files|
      invariant 0 <= i <= |files| && hasher.written == Header(b) + Files(files[..i])
    {
      FilesSnoc(files, i);
      hasher.WriteString(files[i].name);
      hasher.WriteString(files[i].content);
      Associate(Header(b) + Files(files[..i]), String(files[i].name), String(files[i].content));
      Associate(Header(b), Files(files[..i]), String(files[i].name) + String(files[i].content));
      i := i + 1;
    }
    assert files[..i] == files;
    written := hasher.written;
  }

  method WriteHeader(hasher: Hasher, b: Build)
    requires hasher.written == []
    modifies hasher
    ensures hasher.written == Header(b)
  {
    hide Strings, String, Uint64;
    hasher.WriteString(Context());
    hasher.WriteUint64(b.id);
    hasher.WriteUint64(Wrap(b.runId));
    hasher.WriteUint64(Wrap(b.artifactId));
    var identity := [
      b.provider, b.repo, b.workflow, b.selector, b.ref, b.artifactName, b.runUrl, b.htmlUrl, b.sourceSha, b.platform,
      b.appName, b.version, b.buildRef, b.sourceTag, b.assetsRelease, b.assets];
    assert identity == Identity(b);
    hide Identity;
    ghost var start := hasher.written;
    var i := 0;
    assert Strings(identity[..0]) == [] by { NoStrings(identity[..0]); }
    while i < |identity|
      invariant 0 <= i <= |identity| && hasher.written == start + Strings(identity[..i])
    {
      StringsSnoc(identity, i);
      hasher.WriteString(identity[i]);
      Associate(start, Strings(identity[..i]), String(identity[i]));
      i := i + 1;
    }
    assert identity[..i] == identity;
    hasher.WriteUint64(Wrap(b.releaseId));
  }

  lemma NoFiles(fs: seq<File>)
    requires fs == []
    ensures Files(fs) == []
  {}

  lemma NoStrings(ss: seq<Text>)
    requires ss == []
    ensures Strings(ss) == []
  {}

  /** Two published directories with the same bytes under the hash are the same build and the same files. */
  lemma SamePreimageSameOutput(es: seq<Entry>, b: Build, es': seq<Entry>, b': Build, windows: bool, windows': bool)
    requires Publishable(es, windows) && Publishable(es', windows')
    requires forall i, j :: 0 <= i < j < |es| ==> es[i].name != es[j].name
    requires forall i, j :: 0 <= i < j < |es'| ==> es'[i].name != es'[j].name
    requires Preimage(b, SortByName(FilesOf(es))) == Preimage(b', SortByName(FilesOf(es')))
    ensures b == b' && multiset(FilesOf(es)) == multiset(FilesOf(es'))
  {
    PreimageInjective(b, SortByName(FilesOf(es)), b', SortByName(FilesOf(es')));
    SortSorts(FilesOf(es));
    SortSorts(FilesOf(es'));
  }
}
