/**
 Version ordering.  On accepted versions the comparison is the lexicographic order of a key, which is
 the precedence of section 11 of Semantic Versioning 2.0.0: numeric core, a release after its
 prereleases, numeric identifiers before others, a longer list after its prefix.
 */
module Semver {
  import opened Text
  import opened Wrappers

  const MAX_INT := 0x7FFF_FFFF_FFFF_FFFF

  // ---------------------------------------------------------------- numbers

  predicate Digit(c: char) { '0' <= c <= '9' }
  predicate Digits(s: string) { s != "" && forall c :: c in s ==> Digit(c) }

  function Value(s: string): nat
    requires forall c :: c in s ==> Digit(c)
  {
    if s == "" then 0
    else
      var last := s[|s| - 1];
      assert last in s && Digit(last);
      Value(s[..|s| - 1]) * 10 + (last as int - '0' as int)
  }

  /** strconv.Atoi. */
  function Atoi(s: string): Option<int> {
    var body := if s != "" && (s[0] == '-' || s[0] == '+') then s[1..] else s;
    if !Digits(body) then None
    else
      var n: int := if s[0] == '-' then -(Value(body) as int) else Value(body);
      if -MAX_INT - 1 <= n <= MAX_INT then Some(n) else None
  }

  /** A decimal number without leading zeros. */
  predicate Canonical(s: string) { Digits(s) && (|s| > 1 ==> s[0] != '0') }

  lemma {:induction false} LeadingPositive(s: string)
    requires Digits(s) && s[0] != '0'
    ensures Value(s) > 0
    decreases |s|
  {
    assert s[0] in s && Digit(s[0]) && s[0] as int > '0' as int;
    var init := s[..|s| - 1];
    if |s| > 1 {
      assert init[0] == s[0] && s[|s| - 1] in s && Digit(s[|s| - 1]);
      LeadingPositive(init);
    }
  }

  /** Canonical numbers are equal when their values are. */
  lemma {:induction false} ValueInjective(s: string, t: string)
    requires Canonical(s) && Canonical(t) && Value(s) == Value(t)
    ensures s == t
    decreases |s|
  {
    var si, ti, sd, td := s[..|s| - 1], t[..|t| - 1], s[|s| - 1], t[|t| - 1];
    assert sd in s && td in t;
    if |s| > 1 { LeadingPositive(si); }
    if |t| > 1 { LeadingPositive(ti); }
    assert s == si + [sd] && t == ti + [td];
    if |s| > 1 && |t| > 1 {
      ValueInjective(si, ti);
    } else {
      assert |s| == 1 ==> Value(si) == 0;
      assert |t| == 1 ==> Value(ti) == 0;
    }
  }

  // ---------------------------------------------------------------- lexicographic order

  /** A position of a key; `Released` stands where a version has no prerelease. */
  datatype Id = Number(n: nat) | Word(s: string) | Released

  function CompareId(a: Id, b: Id): (r: int)
    ensures -1 <= r <= 1
  {
    match (a, b)
    case (Number(x), Number(y)) => if x < y then -1 else if x > y then 1 else 0
    case (Word(x), Word(y)) => CompareText(x, y)
    case (Released, Released) => 0
    case (Number(_), _) => -1
    case (_, Number(_)) => 1
    case (Word(_), _) => -1
    case (_, Word(_)) => 1
  }

  function Lex(a: seq<Id>, b: seq<Id>): (r: int)
    ensures -1 <= r <= 1
  {
    if a == [] then if b == [] then 0 else -1
    else if b == [] then 1
    else if CompareId(a[0], b[0]) != 0 then CompareId(a[0], b[0])
    else Lex(a[1..], b[1..])
  }

  lemma IdOrder(a: Id, b: Id, c: Id)
    ensures CompareId(a, b) == -CompareId(b, a)
    ensures CompareId(a, b) == 0 <==> a == b
    ensures CompareId(a, b) <= 0 && CompareId(b, c) <= 0 ==>
      CompareId(a, c) <= 0 && (CompareId(a, c) == 0 ==> CompareId(a, b) == 0 && CompareId(b, c) == 0)
  {
    if a.Word? && b.Word? { TextOrder(a.s, b.s, if c.Word? then c.s else ""); }
  }

  /** Keys are totally ordered: antisymmetric, transitive, and zero only on equal keys. */
  lemma {:induction false} LexOrder(a: seq<Id>, b: seq<Id>, c: seq<Id>)
    ensures Lex(a, b) == -Lex(b, a)
    ensures Lex(a, b) == 0 <==> a == b
    ensures Lex(a, b) <= 0 && Lex(b, c) <= 0 ==>
      Lex(a, c) <= 0 && (Lex(a, c) == 0 ==> Lex(a, b) == 0 && Lex(b, c) == 0)
    decreases |a| + |b| + |c|
  {
    hide CompareId;
    if a != [] && b != [] {
      assert a == [a[0]] + a[1..] && b == [b[0]] + b[1..];
      IdOrder(a[0], b[0], if c == [] then Released else c[0]);
      LexOrder(a[1..], b[1..], if c == [] then [] else c[1..]);
    }
  }

  /** Lists with prefixes of one length: the prefixes decide unless they tie. */
  lemma {:induction false} LexAppend(k: seq<Id>, a: seq<Id>, l: seq<Id>, b: seq<Id>)
    requires |k| == |l|
    ensures Lex(k + a, l + b) == if Lex(k, l) != 0 then Lex(k, l) else Lex(a, b)
    decreases |k|
  {
    hide CompareId;
    if k == [] {
      assert k + a == a && l + b == b;
    } else {
      assert (k + a)[1..] == k[1..] + a && (l + b)[1..] == l[1..] + b;
      LexAppend(k[1..], a, l[1..], b);
    }
  }

  // ---------------------------------------------------------------- versions

  /** strings.Cut at the first hyphen. */
  function CutHyphen(v: string): (r: (string, Option<string>))
    ensures '-' !in r.0 && v == (if r.1.None? then r.0 else r.0 + ['-'] + r.1.value)
  {
    if v == "" then ("", None)
    else if v[0] == '-' then ("", Some(v[1..]))
    else
      var rest := CutHyphen(v[1..]);
      ([v[0]] + rest.0, rest.1)
  }

  predicate IdChar(c: char) { Digit(c) || 'A' <= c <= 'Z' || 'a' <= c <= 'z' || c == '-' }

  predicate ValidId(s: string) {
    && s != ""
    && (forall c :: c in s ==> IdChar(c))
    && (|s| > 1 && s[0] == '0' ==> !Digits(s))
  }

  /** The versions the API accepts. */
  predicate ValidVersion(v: string) {
    var cut := CutHyphen(v);
    var core := Split(cut.0, '.');
    && |v| <= 32
    && |core| == 3
    && (forall p :: p in core ==> Canonical(p))
    && (cut.1.Some? ==> forall p :: p in Split(cut.1.value, '.') ==> ValidId(p))
  }

  /** A hyphen followed by digits, which strconv.Atoi reads as a negative number. */
  predicate HyphenNumber(s: string) { s != "" && s[0] == '-' && Digits(s[1..]) }

  predicate FitsInt(s: string) { Digits(s) ==> Value(s) <= MAX_INT }

  /** Valid versions whose numbers fit an int and that have no hyphen-number identifier. */
  predicate Fits(v: string) {
    var cut := CutHyphen(v);
    && ValidVersion(v)
    && (forall p :: p in Split(cut.0, '.') ==> FitsInt(p))
    && (cut.1.Some? ==> forall p :: p in Split(cut.1.value, '.') ==> FitsInt(p) && !HyphenNumber(p))
  }

  /** Numeric identifiers are compared as numbers, all others as text. */
  function IdOf(s: string): Id { if Digits(s) then Number(Value(s)) else Word(s) }

  function IdsOf(parts: seq<string>): (ids: seq<Id>)
    ensures |ids| == |parts| && forall i :: 0 <= i < |parts| ==> ids[i] == IdOf(parts[i])
  {
    seq(|parts|, i requires 0 <= i < |parts| => IdOf(parts[i]))
  }

  function PreKey(pre: Option<string>): seq<Id> {
    if pre.None? then [Released] else IdsOf(Split(pre.value, '.'))
  }

  /** The precedence of a version. */
  function Key(v: string): seq<Id> { IdsOf(Split(CutHyphen(v).0, '.')) + PreKey(CutHyphen(v).1) }

  lemma IdOfInjective(s: string, t: string)
    requires Canonical(s) || ValidId(s)
    requires Canonical(t) || ValidId(t)
    requires IdOf(s) == IdOf(t)
    ensures s == t
  {
    if Digits(s) { ValueInjective(s, t); }
  }

  lemma {:induction false} IdsOfInjective(p: seq<string>, q: seq<string>)
    requires forall s :: s in p || s in q ==> Canonical(s) || ValidId(s)
    requires IdsOf(p) == IdsOf(q)
    ensures p == q
  {
    assert |p| == |IdsOf(p)| == |IdsOf(q)| == |q|;
    forall i | 0 <= i < |p| ensures p[i] == q[i] {
      assert p[i] in p && q[i] in q && IdsOf(p)[i] == IdsOf(q)[i];
      IdOfInjective(p[i], q[i]);
    }
  }

  /** Versions with the same precedence are the same string. */
  lemma KeyInjective(v: string, w: string)
    requires ValidVersion(v) && ValidVersion(w) && Key(v) == Key(w)
    ensures v == w
  {
    hide Canonical, ValidId, IdOf, Split, CutHyphen;
    var cv, cw := CutHyphen(v), CutHyphen(w);
    var pv, pw := Split(cv.0, '.'), Split(cw.0, '.');
    assert IdsOf(pv) == Key(v)[..3] == Key(w)[..3] == IdsOf(pw);
    IdsOfInjective(pv, pw);
    JoinSplit(cv.0, '.');
    JoinSplit(cw.0, '.');
    assert PreKey(cv.1) == Key(v)[3..] == Key(w)[3..] == PreKey(cw.1);
    SamePre(cv.1, cw.1);
  }

  lemma PreKeyStarts(pre: Option<string>)
    ensures PreKey(pre) != [] && (PreKey(pre)[0].Released? <==> pre.None?)
  {
  }

  lemma SamePre(p: Option<string>, q: Option<string>)
    requires p.Some? ==> forall s :: s in Split(p.value, '.') ==> ValidId(s)
    requires q.Some? ==> forall s :: s in Split(q.value, '.') ==> ValidId(s)
    requires PreKey(p) == PreKey(q)
    ensures p == q
  {
    hide ValidId, Split, Join;
    PreKeyStarts(p);
    PreKeyStarts(q);
    if p.Some? {
      IdsOfInjective(Split(p.value, '.'), Split(q.value, '.'));
      JoinSplit(p.value, '.');
      JoinSplit(q.value, '.');
    }
  }

  /** -1, 0 or 1: which of two versions comes first. */
  function Precedence(v: string, w: string): int { Lex(Key(v), Key(w)) }

  /** Precedence is a total order on accepted versions, and only equal strings tie. */
  lemma TotalOrder(u: string, v: string, w: string)
    requires ValidVersion(u) && ValidVersion(v) && ValidVersion(w)
    ensures Precedence(u, v) == -Precedence(v, u)
    ensures Precedence(u, v) == 0 <==> u == v
    ensures Precedence(u, v) <= 0 && Precedence(v, w) <= 0 ==> Precedence(u, w) <= 0
  {
    hide Lex, Key, ValidVersion;
    LexOrder(Key(u), Key(v), Key(w));
    if Precedence(u, v) == 0 { KeyInjective(u, v); }
  }

  // ---------------------------------------------------------------- section 11, position by position

  /** Numbers in numeric order, then words in text order, then the end of a version without prerelease. */
  ghost predicate IdBefore(a: Id, b: Id) {
    || (a.Number? && b.Number? && a.n < b.n)
    || (a.Number? && !b.Number?)
    || (a.Word? && b.Word? && exists k: nat :: LessAt(a.s, b.s, k))
    || (a.Word? && b.Released?)
  }

  /** The keys agree before `k`, where the first ends or has the earlier position. */
  ghost predicate BeforeAt(a: seq<Id>, b: seq<Id>, k: nat) {
    k <= |a| && k < |b| && a[..k] == b[..k] && (k == |a| || IdBefore(a[k], b[k]))
  }

  lemma IdExactly(a: Id, b: Id)
    ensures CompareId(a, b) < 0 <==> IdBefore(a, b)
  {
    if a.Word? && b.Word? { CompareTextExactly(a.s, b.s); }
  }

  lemma {:induction false} LexExactly(a: seq<Id>, b: seq<Id>)
    ensures Lex(a, b) < 0 <==> exists k: nat :: BeforeAt(a, b, k)
    decreases |a|
  {
    hide IdBefore, CompareId;
    if b == [] {
    } else if a == [] {
      assert BeforeAt(a, b, 0);
    } else if a[0] != b[0] {
      IdExactly(a[0], b[0]);
      IdOrder(a[0], b[0], b[0]);
      if IdBefore(a[0], b[0]) { assert BeforeAt(a, b, 0); }
      forall k: nat | k > 0
        ensures !BeforeAt(a, b, k)
      {
        if k <= |a| && k <= |b| { assert a[..k][0] == a[0] && b[..k][0] == b[0]; }
      }
    } else {
      LexExactly(a[1..], b[1..]);
      IdExactly(a[0], b[0]);
      IdOrder(a[0], b[0], b[0]);
      if k: nat :| BeforeAt(a[1..], b[1..], k) {
        assert a[..k + 1] == [a[0]] + a[1..][..k] && b[..k + 1] == [b[0]] + b[1..][..k];
        assert BeforeAt(a, b, k + 1);
      }
      if k: nat :| BeforeAt(a, b, k) {
        assert k > 0;
        assert a[1..][..k - 1] == a[..k][1..] && b[1..][..k - 1] == b[..k][1..];
        assert BeforeAt(a[1..], b[1..], k - 1);
      }
    }
  }

  /** Of two versions the one precedes that has the earlier position where they first differ. */
  lemma PrecedesExactly(v: string, w: string)
    ensures Precedence(v, w) < 0 <==> exists k: nat :: BeforeAt(Key(v), Key(w), k)
  {
    hide Lex, BeforeAt, Key;
    LexExactly(Key(v), Key(w));
  }

  /** The positions of a version: its core numbers, then its prerelease identifiers or their absence. */
  lemma KeyExactly(v: string)
    ensures
      var core, ids := Split(CutHyphen(v).0, '.'), Key(v);
      && |ids| > |core|
      && (forall i :: 0 <= i < |core| ==> ids[i] == IdOf(core[i]))
      && match CutHyphen(v).1
         case None => ids[|core|..] == [Released]
         case Some(pre) => ids[|core|..] == IdsOf(Split(pre, '.'))
  {
    hide IdOf, Split, CutHyphen;
    var core, pre := IdsOf(Split(CutHyphen(v).0, '.')), PreKey(CutHyphen(v).1);
    assert Key(v) == core + pre && (core + pre)[|core|..] == pre;
    PreKeyStarts(CutHyphen(v).1);
  }
}
