/**
 The source's version comparison.  On accepted versions it is proved equal to precedence exactly when a stated
 condition on the two versions holds; outside that condition there are accepted versions that form cycles.
 */
module SemverCompare {
  import opened Semver
  import opened Text
  import opened Wrappers

  // ---------------------------------------------------------------- what the code computes

  /** int subtraction. */
  function Sub64(x: int, y: int): int {
    (x - y + MAX_INT + 1) % (2 * (MAX_INT + 1)) - MAX_INT - 1
  }

  function Sign(n: int): int { if n < 0 then -1 else if n > 0 then 1 else 0 }

  function SplitVersion(v: string): (r: (string, string)) {
    var cut := CutHyphen(v);
    (cut.0, if cut.1.Some? then cut.1.value else "")
  }

  /** The core parts of a version. */
  function Core(v: string): seq<string> { Split(SplitVersion(v).0, '.') }

  /** Two core parts: as numbers if both can be read, as text otherwise. */
  function CompareCore(s: string, t: string): int {
    if Atoi(s).None? || Atoi(t).None? then CompareText(s, t) else Sign(Sub64(Atoi(s).value, Atoi(t).value))
  }

  /** A part that only one core has counts when it is a number other than zero. */
  predicate Counts(s: string) { Atoi(s).Some? && Atoi(s).value != 0 }

  function CompareCores(p: seq<string>, q: seq<string>): int
    decreases |p| + |q|
  {
    if p == [] then if q == [] then 0 else if Counts(q[0]) then -1 else CompareCores(p, q[1..])
    else if q == [] then if Counts(p[0]) then 1 else CompareCores(p[1..], q)
    else if CompareCore(p[0], q[0]) != 0 then CompareCore(p[0], q[0])
    else CompareCores(p[1..], q[1..])
  }

  /** Two prerelease identifiers: what can be read as a number comes first. */
  function CompareIdentifier(s: string, t: string): int {
    if Atoi(s).Some? && Atoi(t).Some? then Sign(Sub64(Atoi(s).value, Atoi(t).value))
    else if Atoi(s).Some? then -1
    else if Atoi(t).Some? then 1
    else CompareText(s, t)
  }

  function CompareIdentifiers(p: seq<string>, q: seq<string>): int {
    if p == [] || q == [] then Sign(|p| - |q|)
    else if CompareIdentifier(p[0], q[0]) != 0 then CompareIdentifier(p[0], q[0])
    else CompareIdentifiers(p[1..], q[1..])
  }

  /** The sign that the comparison of two strings has. */
  function Compared(a: string, b: string): int {
    var c := CompareCores(Core(a), Core(b));
    var p, q := SplitVersion(a).1, SplitVersion(b).1;
    if c != 0 then c
    else if p == q then 0
    else if p == "" then 1
    else if q == "" then -1
    else CompareIdentifiers(Split(p, '.'), Split(q, '.'))
  }

  function Rest(s: seq<string>, i: nat): seq<string> { if i <= |s| then s[i..] else [] }

  lemma SignOfDifference(x: int, y: int)
    requires -MAX_INT - 1 <= x <= MAX_INT && -MAX_INT - 1 <= y <= MAX_INT
    ensures Sub64(x, y) == 0 <==> x == y
    ensures -MAX_INT - 1 <= x - y <= MAX_INT ==> Sub64(x, y) == x - y
    ensures x - y > MAX_INT ==> Sub64(x, y) < 0
    ensures x - y < -MAX_INT - 1 ==> Sub64(x, y) > 0
  {}

  lemma AtoiRange(s: string)
    ensures Atoi(s).Some? ==> -MAX_INT - 1 <= Atoi(s).value <= MAX_INT
  {}

  method ComparePrerelease(a: string, b: string) returns (r: int)
    ensures Sign(r) == CompareIdentifiers(Split(a, '.'), Split(b, '.'))
  {
    hide Atoi, Split, CompareText;
    var pa, pb := Split(a, '.'), Split(b, '.');
    var n := |pa|;
    if |pb| < n { n := |pb|; }
    var i := 0;
    assert pa[0..] == pa && pb[0..] == pb;
    while i < n
      invariant 0 <= i <= n
      invariant CompareIdentifiers(pa, pb) == CompareIdentifiers(pa[i..], pb[i..])
    {
      assert pa[i..][1..] == pa[i + 1..] && pb[i..][1..] == pb[i + 1..];
      var ai, bi := Atoi(pa[i]), Atoi(pb[i]);
      AtoiRange(pa[i]);
      AtoiRange(pb[i]);
      if ai.Some? && bi.Some? {
        SignOfDifference(ai.value, bi.value);
        if ai.value != bi.value { return Sub64(ai.value, bi.value); }
      } else if ai.Some? {
        return -1;
      } else if bi.Some? {
        return 1;
      } else {
        var cmp := CompareText(pa[i], pb[i]);
        if cmp != 0 { return cmp; }
      }
      i := i + 1;
    }
    if |pa| != |pb| { return |pa| - |pb|; }
    return 0;
  }

  /** compareSemver: the sign of its result, for all strings. */
  method CompareSemver(a: string, b: string) returns (r: int)
    ensures Sign(r) == Compared(a, b)
  {
    hide Atoi, Split, CutHyphen, CompareText, CompareIdentifiers;
    var (coreA, preA) := SplitVersion(a);
    var (coreB, preB) := SplitVersion(b);
    var pa, pb := Split(coreA, '.'), Split(coreB, '.');
    var n := |pa|;
    if |pb| > n { n := |pb|; }
    var i := 0;
    assert Rest(pa, 0) == pa && Rest(pb, 0) == pb;
    while i < n
      invariant 0 <= i <= n
      invariant CompareCores(pa, pb) == CompareCores(Rest(pa, i), Rest(pb, i))
    {
      OnePart(pa, pb, i);
      if i >= |pa| {
        var v := Atoi(pb[i]);
        if v.Some? && v.value != 0 { return -1; }
      } else if i >= |pb| {
        var v := Atoi(pa[i]);
        if v.Some? && v.value != 0 { return 1; }
      } else {
        var va, vb := Atoi(pa[i]), Atoi(pb[i]);
        AtoiRange(pa[i]);
        AtoiRange(pb[i]);
        if va.None? || vb.None? {
          var cmp := CompareText(pa[i], pb[i]);
          if cmp != 0 { return cmp; }
        } else if va.value != vb.value {
          SignOfDifference(va.value, vb.value);
          return Sub64(va.value, vb.value);
        }
      }
      i := i + 1;
    }
    if preA == preB { return 0; }
    if preA == "" { return 1; }
    if preB == "" { return -1; }
    r := ComparePrerelease(preA, preB);
  }

  lemma OnePart(p: seq<string>, q: seq<string>, i: nat)
    requires i < |p| || i < |q|
    ensures
      var now, next := CompareCores(Rest(p, i), Rest(q, i)), CompareCores(Rest(p, i + 1), Rest(q, i + 1));
      if i >= |p| then now == if Counts(q[i]) then -1 else next
      else if i >= |q| then now == if Counts(p[i]) then 1 else next
      else now == if CompareCore(p[i], q[i]) != 0 then CompareCore(p[i], q[i]) else next
  {
    hide Counts, CompareCore;
    if i < |p| { assert Rest(p, i)[1..] == Rest(p, i + 1) && Rest(p, i)[0] == p[i]; }
    if i < |q| { assert Rest(q, i)[1..] == Rest(q, i + 1) && Rest(q, i)[0] == q[i]; }
  }

  // ---------------------------------------------------------------- text and value

  lemma {:induction false} TextSnoc(p: string, q: string)
    requires |p| == |q| > 0
    ensures
      var n := |p| - 1;
      CompareText(p, q) ==
        if CompareText(p[..n], q[..n]) != 0 then CompareText(p[..n], q[..n])
        else if p[n] == q[n] then 0
        else if p[n] < q[n] then -1
        else 1
    decreases |p|
  {
    var n := |p| - 1;
    if n > 0 {
      TextSnoc(p[1..], q[1..]);
      assert p[1..][..n - 1] == p[..n][1..] && q[1..][..n - 1] == q[..n][1..];
    }
  }

  /** Digit strings of one length compare as text as they do as numbers. */
  lemma {:induction false} SameLength(p: string, q: string)
    requires (forall c :: c in p ==> Digit(c)) && (forall c :: c in q ==> Digit(c)) && |p| == |q|
    ensures CompareText(p, q) == Sign(Value(p) - Value(q))
    decreases |p|
  {
    if p != "" {
      var n := |p| - 1;
      assert p[n] in p && q[n] in q && Digit(p[n]) && Digit(q[n]);
      SameLength(p[..n], q[..n]);
      hide CompareText;
      TextSnoc(p, q);
    }
  }

  function Pow10(k: nat): (n: nat)
    ensures n > 0
  {
    if k == 0 then 1 else 10 * Pow10(k - 1)
  }

  lemma {:induction false} Pow10Grows(j: nat, k: nat)
    requires j <= k
    ensures Pow10(j) <= Pow10(k)
    decreases k
  {
    if j < k { Pow10Grows(j, k - 1); }
  }

  lemma {:induction false} BelowPower(s: string)
    requires forall c :: c in s ==> Digit(c)
    ensures Value(s) < Pow10(|s|)
    decreases |s|
  {
    if s != "" {
      assert s[|s| - 1] in s && Digit(s[|s| - 1]);
      BelowPower(s[..|s| - 1]);
    }
  }

  lemma {:induction false} AtLeastPower(s: string)
    requires Digits(s) && s[0] != '0'
    ensures Value(s) >= Pow10(|s| - 1)
    decreases |s|
  {
    assert s[0] in s && Digit(s[0]) && s[0] as int > '0' as int;
    var front := s[..|s| - 1];
    if |s| > 1 {
      assert front[0] == s[0] && s[|s| - 1] in s && Digit(s[|s| - 1]);
      AtLeastPower(front);
    }
  }

  /** Without leading zeros the longer digit string is the larger number. */
  lemma ShorterIsSmaller(p: string, q: string)
    requires Canonical(p) && Canonical(q) && |p| < |q|
    ensures Value(p) < Value(q)
  {
    BelowPower(p);
    AtLeastPower(q);
    Pow10Grows(|p|, |q| - 1);
  }

  // ---------------------------------------------------------------- core parts

  /** Both parts fit an int, or their text happens to order as their numbers do. */
  predicate CorePartsAgree(p: string, q: string) {
    (FitsInt(p) && FitsInt(q)) || |p| == |q| || (CompareText(p, q) < 0 <==> |p| < |q|)
  }

  lemma ReadCore(s: string)
    requires Canonical(s)
    ensures Atoi(s) == if FitsInt(s) then Some(Value(s)) else None
  {
    assert s[0] in s;
  }

  lemma CorePartExactly(p: string, q: string)
    requires Canonical(p) && Canonical(q)
    ensures CompareCore(p, q) == Sign(Value(p) - Value(q)) <==> CorePartsAgree(p, q)
    ensures CompareCore(p, q) == 0 <==> p == q
  {
    hide CompareText, Atoi, Value;
    ReadCore(p);
    ReadCore(q);
    TextOrder(p, q, "");
    if p != q && Value(p) == Value(q) { ValueInjective(p, q); }
    if FitsInt(p) && FitsInt(q) {
      SignOfDifference(Value(p), Value(q));
    } else if |p| == |q| {
      SameLength(p, q);
    } else if |p| < |q| {
      ShorterIsSmaller(p, q);
    } else {
      ShorterIsSmaller(q, p);
    }
  }

  /** The first core parts that differ agree. */
  predicate CoresAgree(p: seq<string>, q: seq<string>) {
    if p == [] || q == [] then true
    else if p[0] == q[0] then CoresAgree(p[1..], q[1..])
    else CorePartsAgree(p[0], q[0])
  }

  lemma LexHead(p: seq<string>, q: seq<string>)
    requires p != [] && q != []
    ensures
      var c := CompareId(IdOf(p[0]), IdOf(q[0]));
      Lex(IdsOf(p), IdsOf(q)) == if c != 0 then c else Lex(IdsOf(p[1..]), IdsOf(q[1..]))
  {
    hide CompareId, IdOf;
    IdsOfTail(p);
    IdsOfTail(q);
  }

  lemma SameHeadAndTail(p: seq<string>, q: seq<string>)
    requires p != [] && q != []
    ensures p == q <==> p[0] == q[0] && p[1..] == q[1..]
  {
    assert p == [p[0]] + p[1..] && q == [q[0]] + q[1..];
  }

  lemma {:induction false} CoresExactly(p: seq<string>, q: seq<string>)
    requires |p| == |q| && forall s :: s in p || s in q ==> Canonical(s)
    ensures CompareCores(p, q) == Lex(IdsOf(p), IdsOf(q)) <==> CoresAgree(p, q)
    ensures (CompareCores(p, q) == 0 <==> p == q) && (Lex(IdsOf(p), IdsOf(q)) == 0 <==> p == q)
    decreases |p|
  {
    if p == [] {
      assert IdsOf(p) == IdsOf(q) == [];
    } else {
      hide CompareCore, CorePartsAgree, Canonical, CompareId, IdOf, Lex, IdsOf, Counts;
      assert p[0] in p && q[0] in q;
      LexHead(p, q);
      SameHeadAndTail(p, q);
      CoreIds(p[0], q[0]);
      CoresExactly(p[1..], q[1..]);
    }
  }

  lemma IdsOfTail(p: seq<string>)
    requires p != []
    ensures IdsOf(p)[0] == IdOf(p[0]) && IdsOf(p)[1..] == IdsOf(p[1..])
  {}

  lemma CanonicalIds(p: string, q: string)
    requires Canonical(p) && Canonical(q)
    ensures CompareId(IdOf(p), IdOf(q)) == Sign(Value(p) - Value(q))
    ensures CompareId(IdOf(p), IdOf(q)) == 0 <==> p == q
  {
    if Value(p) == Value(q) { ValueInjective(p, q); }
  }

  lemma CoreIds(p: string, q: string)
    requires Canonical(p) && Canonical(q)
    ensures CompareCore(p, q) == CompareId(IdOf(p), IdOf(q)) <==> CorePartsAgree(p, q)
    ensures (CompareCore(p, q) == 0 <==> p == q) && (CompareId(IdOf(p), IdOf(q)) == 0 <==> p == q)
  {
    hide CompareCore, CorePartsAgree, IdOf, CompareId;
    CanonicalIds(p, q);
    CorePartExactly(p, q);
  }

  // ---------------------------------------------------------------- prerelease identifiers

  /** A hyphen and digits that read as a negative number, or as zero. */
  predicate HyphenInRange(s: string) { HyphenNumber(s) && Value(s[1..]) <= MAX_INT + 1 }

  lemma ReadIdentifier(s: string)
    requires ValidId(s)
    ensures Digits(s) ==> Canonical(s) && Atoi(s) == if FitsInt(s) then Some(Value(s)) else None
    ensures HyphenInRange(s) ==> !Digits(s) && Atoi(s) == Some(-(Value(s[1..]) as int))
    ensures !Digits(s) && !HyphenInRange(s) ==> Atoi(s) == None
  {
    assert s[0] in s;
    if s[0] == '-' { assert !Digit(s[0]); }
  }

  /** A digit identifier before a word: the word does not read as a number, or the difference wraps around. */
  predicate DigitsThenWord(s: string, t: string)
    requires Digits(s)
  {
    if HyphenInRange(t) then FitsInt(s) && Value(s) + Value(t[1..]) > MAX_INT
    else FitsInt(s) || CompareText(s, t) < 0
  }

  predicate WordThenDigits(s: string, t: string)
    requires Digits(t)
  {
    if HyphenInRange(s) then FitsInt(t) && Value(s[1..]) + Value(t) > MAX_INT + 1
    else FitsInt(t) || CompareText(s, t) > 0
  }

  /** Two words: hyphen-numbers go by magnitude, the larger one first, and before other words. */
  predicate WordsAgree(s: string, t: string) {
    if HyphenInRange(s) && HyphenInRange(t) then
      var v, w := Value(s[1..]), Value(t[1..]);
      CompareText(s, t) == if w - v > MAX_INT then -1 else Sign(w - v)
    else if HyphenInRange(s) then CompareText(s, t) < 0
    else if HyphenInRange(t) then CompareText(s, t) > 0
    else true
  }

  /** The code orders two different identifiers by precedence. */
  predicate IdentifiersAgree(s: string, t: string) {
    if Digits(s) && Digits(t) then FitsInt(s) || FitsInt(t) || |s| == |t| || (CompareText(s, t) < 0 <==> |s| < |t|)
    else if Digits(s) then DigitsThenWord(s, t)
    else if Digits(t) then WordThenDigits(s, t)
    else WordsAgree(s, t)
  }

  lemma TwoNumbers(s: string, t: string)
    requires Canonical(s) && Canonical(t) && s != t
    requires FitsInt(s) ==> Atoi(s) == Some(Value(s))
    requires !FitsInt(s) ==> Atoi(s) == None
    requires FitsInt(t) ==> Atoi(t) == Some(Value(t))
    requires !FitsInt(t) ==> Atoi(t) == None
    ensures CompareIdentifier(s, t) == CompareId(IdOf(s), IdOf(t)) <==> IdentifiersAgree(s, t)
  {
    hide CompareText, Atoi, Value;
    CanonicalIds(s, t);
    TextOrder(s, t, "");
    if FitsInt(s) && FitsInt(t) {
      SignOfDifference(Value(s), Value(t));
    } else if !FitsInt(s) && !FitsInt(t) {
      if |s| == |t| { SameLength(s, t); } else if |s| < |t| { ShorterIsSmaller(s, t); } else { ShorterIsSmaller(t, s); }
    }
  }

  /** Two different identifiers are ordered by precedence exactly under the stated condition. */
  lemma IdentifierExactly(s: string, t: string)
    requires ValidId(s) && ValidId(t) && s != t
    ensures CompareIdentifier(s, t) == CompareId(IdOf(s), IdOf(t)) <==> IdentifiersAgree(s, t)
  {
    hide CompareText, Atoi, Value, ValidId;
    ReadIdentifier(s);
    ReadIdentifier(t);
    TextOrder(s, t, "");
    if Digits(s) && Digits(t) {
      TwoNumbers(s, t);
    } else if Digits(s) {
      if HyphenInRange(t) && FitsInt(s) { SignOfDifference(Value(s), -(Value(t[1..]) as int)); }
    } else if Digits(t) {
      if HyphenInRange(s) && FitsInt(t) { SignOfDifference(-(Value(s[1..]) as int), Value(t)); }
    } else if HyphenInRange(s) && HyphenInRange(t) {
      SignOfDifference(-(Value(s[1..]) as int), -(Value(t[1..]) as int));
    }
  }

  // ---------------------------------------------------------------- identifier lists

  /** How the code compares two identifiers it cannot tell apart. */
  predicate Tie(s: string, t: string) {
    if Atoi(s).Some? && Atoi(t).Some? then Atoi(s) == Atoi(t)
    else Atoi(s).None? && Atoi(t).None? && s == t
  }

  lemma {:induction false} LeadingZero(s: string)
    requires Digits(s)
    ensures Digits("0" + s) && Value("0" + s) == Value(s)
    decreases |s|
  {
    var z := "0" + s;
    assert z[..|z| - 1] == "0" + s[..|s| - 1];
    if |s| > 1 { LeadingZero(s[..|s| - 1]); } else { assert s[..0] == ""; assert "0"[..0] == ""; }
  }

  /** An identifier ties with a different one exactly when it is zero or a hyphen-number within the int range. */
  lemma TiesExactly(s: string)
    requires ValidId(s)
    ensures (exists t :: ValidId(t) && t != s && Tie(s, t)) <==> s == "0" || (HyphenNumber(s) && Atoi(s).Some?)
  {
    if s == "0" {
      assert "-0"[1..] == "0" && "0"[..0] == "";
      assert ValidId("-0") && Tie(s, "-0");
    } else if HyphenNumber(s) && Atoi(s).Some? {
      var t := "-0" + s[1..];
      LeadingZero(s[1..]);
      assert t[1..] == "0" + s[1..] && !Digit(t[0]) && t[0] in t;
      assert ValidId(t) && t != s && Tie(s, t);
    } else {
      forall t | ValidId(t) && Tie(s, t)
        ensures t == s
      {
        OnlyZeroTies(s, t);
      }
    }
  }

  lemma OnlyZero(s: string)
    requires Canonical(s) && Value(s) == 0
    ensures s == "0"
  {
    assert s[|s| - 1] in s;
    if |s| > 1 { LeadingPositive(s); } else { assert s == [s[0]]; }
  }

  lemma OnlyZeroTies(s: string, t: string)
    requires ValidId(s) && ValidId(t) && Tie(s, t) && !(HyphenNumber(s) && Atoi(s).Some?)
    ensures s == t || s == "0"
  {
    assert s[0] in s && t[0] in t;
    if Atoi(s).Some? && s != t {
      assert Digits(s);
      if Digits(t) { ValueInjective(s, t); }
      assert Value(s) == 0;
      OnlyZero(s);
    }
  }

  lemma TieIsZero(s: string, t: string)
    requires ValidId(s) && ValidId(t)
    ensures CompareIdentifier(s, t) == 0 <==> Tie(s, t)
  {
    hide Atoi, CompareText;
    AtoiRange(s);
    AtoiRange(t);
    TextOrder(s, t, "");
    if Atoi(s).Some? && Atoi(t).Some? { SignOfDifference(Atoi(s).value, Atoi(t).value); }
  }

  /** The first identifiers that differ agree; where the code cannot tell them apart, the rest of the lists must happen
      to come out as those two would. */
  predicate ListsAgree(p: seq<string>, q: seq<string>) {
    if p == [] || q == [] then true
    else if p[0] == q[0] then ListsAgree(p[1..], q[1..])
    else if Tie(p[0], q[0]) then CompareIdentifiers(p[1..], q[1..]) == CompareId(IdOf(p[0]), IdOf(q[0]))
    else IdentifiersAgree(p[0], q[0])
  }

  lemma DifferentIds(s: string, t: string)
    requires ValidId(s) && ValidId(t)
    ensures CompareId(IdOf(s), IdOf(t)) == 0 <==> s == t
  {
    hide CompareId, IdOf, ValidId;
    IdOrder(IdOf(s), IdOf(t), IdOf(s));
    if IdOf(s) == IdOf(t) { IdOfInjective(s, t); }
  }

  lemma {:induction false} ListsExactly(p: seq<string>, q: seq<string>)
    requires forall s :: s in p || s in q ==> ValidId(s)
    ensures CompareIdentifiers(p, q) == Lex(IdsOf(p), IdsOf(q)) <==> ListsAgree(p, q)
    decreases |p|
  {
    if p == [] || q == [] {
      assert |IdsOf(p)| == |p| && |IdsOf(q)| == |q|;
    } else {
      hide CompareIdentifier, IdentifiersAgree, ValidId, CompareId, IdOf, Lex, IdsOf, Tie;
      assert p[0] in p && q[0] in q;
      LexHead(p, q);
      TieIsZero(p[0], q[0]);
      DifferentIds(p[0], q[0]);
      if p[0] == q[0] {
        SameTies(p[0]);
        ListsExactly(p[1..], q[1..]);
      } else if !Tie(p[0], q[0]) {
        IdentifierExactly(p[0], q[0]);
      }
    }
  }

  lemma SameTies(s: string)
    ensures Tie(s, s)
  {}

  // ---------------------------------------------------------------- when the comparison is precedence

  /** What decides whether two accepted versions are compared by precedence: the first core parts that differ, or
      else the identifier lists if both have one. */
  predicate Agrees(a: string, b: string) {
    var p, q := SplitVersion(a).1, SplitVersion(b).1;
    if Core(a) != Core(b) then CoresAgree(Core(a), Core(b))
    else p == "" || q == "" || ListsAgree(Split(p, '.'), Split(q, '.'))
  }

  lemma PreNotEmpty(pre: Option<string>)
    requires pre.Some? ==> forall s :: s in Split(pre.value, '.') ==> ValidId(s)
    ensures pre.Some? ==> pre.value != ""
  {
    if pre.Some? { assert pre.value == "" ==> "" in Split(pre.value, '.'); }
  }

  lemma PreCompared(p: Option<string>, q: Option<string>)
    requires p.Some? ==> forall s :: s in Split(p.value, '.') ==> ValidId(s)
    requires q.Some? ==> forall s :: s in Split(q.value, '.') ==> ValidId(s)
    ensures p.None? && q.Some? ==> Lex(PreKey(p), PreKey(q)) == 1
    ensures p.Some? && q.None? ==> Lex(PreKey(p), PreKey(q)) == -1
    ensures p == q ==> Lex(PreKey(p), PreKey(q)) == 0
  {
    hide ValidId, IdOf, Split;
    PreKeyStarts(p);
    PreKeyStarts(q);
    LexOrder(PreKey(p), PreKey(q), []);
  }

  /** The comparison of two accepted versions has the sign of their precedence if and only if they agree in this sense. */
  lemma ComparesExactly(a: string, b: string)
    requires ValidVersion(a) && ValidVersion(b)
    ensures Compared(a, b) == Precedence(a, b) <==> Agrees(a, b)
  {
    hide Canonical, ValidId, Split, CutHyphen, CompareCores, CompareIdentifiers, Lex, IdsOf, CoresAgree, ListsAgree;
    var p, q := CutHyphen(a).1, CutHyphen(b).1;
    CoresExactly(Core(a), Core(b));
    LexAppend(IdsOf(Core(a)), PreKey(p), IdsOf(Core(b)), PreKey(q));
    PreNotEmpty(p);
    PreNotEmpty(q);
    PreCompared(p, q);
    if Core(a) == Core(b) && p.Some? && q.Some? {
      ListsExactly(Split(p.value, '.'), Split(q.value, '.'));
      if p == q { SelfCompared(Split(p.value, '.')); }
    }
  }

  lemma SelfIdentifier(s: string)
    ensures CompareIdentifier(s, s) == 0
  {
    AtoiRange(s);
    hide Atoi;
    TextOrder(s, s, "");
  }

  lemma {:induction false} SelfCompared(p: seq<string>)
    ensures CompareIdentifiers(p, p) == 0
    decreases |p|
  {
    if p != [] {
      hide CompareIdentifier;
      SelfIdentifier(p[0]);
      SelfCompared(p[1..]);
    }
  }

  // ---------------------------------------------------------------- versions whose numbers fit

  predicate PlainId(s: string) { ValidId(s) && FitsInt(s) && !HyphenNumber(s) }

  lemma PlainIdsAgree(s: string, t: string)
    requires PlainId(s) && PlainId(t)
    ensures IdentifiersAgree(s, t) && (Tie(s, t) ==> s == t)
  {
    hide CompareText, Value, Atoi;
    ReadIdentifier(s);
    ReadIdentifier(t);
    if Digits(s) && Digits(t) && Value(s) == Value(t) { ValueInjective(s, t); }
  }

  lemma {:induction false} PlainListsAgree(p: seq<string>, q: seq<string>)
    requires forall s :: s in p || s in q ==> PlainId(s)
    ensures ListsAgree(p, q)
    decreases |p|
  {
    if p != [] && q != [] {
      hide PlainId, IdentifiersAgree, Tie;
      assert p[0] in p && q[0] in q;
      PlainIdsAgree(p[0], q[0]);
      PlainListsAgree(p[1..], q[1..]);
    }
  }

  lemma {:induction false} FittingCoresAgree(p: seq<string>, q: seq<string>)
    requires forall s :: s in p || s in q ==> FitsInt(s)
    ensures CoresAgree(p, q)
    decreases |p|
  {
    if p != [] && q != [] {
      hide FitsInt;
      assert p[0] in p && q[0] in q;
      FittingCoresAgree(p[1..], q[1..]);
    }
  }

  /** In particular versions whose numbers fit an int and that have no hyphen-number are compared by precedence. */
  lemma FittingVersions(a: string, b: string)
    requires Fits(a) && Fits(b)
    ensures Agrees(a, b) && Compared(a, b) == Precedence(a, b)
  {
    hide Canonical, ValidId, FitsInt, HyphenNumber, Split, CutHyphen, CoresAgree, ListsAgree, Compared, Precedence;
    var p, q := CutHyphen(a).1, CutHyphen(b).1;
    FittingCoresAgree(Core(a), Core(b));
    if p.Some? && q.Some? { PlainListsAgree(Split(p.value, '.'), Split(q.value, '.')); }
    ComparesExactly(a, b);
  }

  // ---------------------------------------------------------------- the catalog

  /** The catalog's order: sorted by the comparison, later versions first. */
  predicate NewestFirst(s: seq<string>) { forall i, j :: 0 <= i < j < |s| ==> Compared(s[i], s[j]) >= 0 }

  lemma SameFirst(a: seq<string>, b: seq<string>)
    requires forall v :: v in a ==> Fits(v)
    requires a != [] && multiset(a) == multiset(b) && NewestFirst(a) && NewestFirst(b)
    ensures b != [] && a[0] == b[0]
  {
    hide Compared, Precedence, ValidVersion, Fits;
    assert a[0] in multiset(b);
    assert b[0] in multiset(a);
    var i :| 0 <= i < |b| && b[i] == a[0];
    var j :| 0 <= j < |a| && a[j] == b[0];
    FitsIsValid(a[0]);
    FitsIsValid(b[0]);
    FittingVersions(a[0], b[0]);
    FittingVersions(b[0], a[0]);
    if i > 0 && j > 0 { TotalOrder(a[0], b[0], a[0]); }
  }

  lemma FitsIsValid(v: string)
    ensures Fits(v) ==> ValidVersion(v)
  {}

  lemma TailMultiset(s: seq<string>)
    requires s != []
    ensures multiset(s[1..]) == multiset(s) - multiset{s[0]}
  {
    assert s == [s[0]] + s[1..];
  }

  /** A catalog of such versions has one newest-first order, whatever the sorting algorithm and the initial order. */
  lemma {:induction false} CatalogOrderUnique(a: seq<string>, b: seq<string>)
    requires forall v :: v in a ==> Fits(v)
    requires multiset(a) == multiset(b) && NewestFirst(a) && NewestFirst(b)
    ensures a == b
    decreases |a|
  {
    hide Compared, Fits;
    if a == [] {
      assert b == [] by { assert |multiset(b)| == 0; }
    } else {
      SameFirst(a, b);
      TailMultiset(a);
      TailMultiset(b);
      CatalogOrderUnique(a[1..], b[1..]);
      assert a == [a[0]] + a[1..] && b == [b[0]] + b[1..];
    }
  }

  // ---------------------------------------------------------------- cycles of accepted versions

  function Zeros(k: nat): (s: string)
    ensures |s| == k && forall c :: c in s ==> c == '0'
  {
    if k == 0 then "" else Zeros(k - 1) + "0"
  }

  lemma {:induction false} Scaled(d: char, k: nat)
    requires Digit(d)
    ensures Digits([d] + Zeros(k)) && Value([d] + Zeros(k)) == (d as int - '0' as int) * Pow10(k)
    decreases k
  {
    var s := [d] + Zeros(k);
    if k == 0 {
      assert s == [d] && s[..0] == "" && Value("") == 0;
    } else {
      Scaled(d, k - 1);
      assert s == ([d] + Zeros(k - 1)) + "0" && s[..|s| - 1] == [d] + Zeros(k - 1);
    }
  }

  lemma {:induction false} CutNone(v: string)
    requires '-' !in v
    ensures CutHyphen(v) == (v, None)
    decreases |v|
  {
    if v != "" {
      CutNone(v[1..]);
      assert v == [v[0]] + v[1..];
    }
  }

  lemma {:induction false} CutAt(core: string, pre: string)
    requires '-' !in core
    ensures CutHyphen(core + ['-'] + pre) == (core, Some(pre))
    decreases |core|
  {
    var v := core + ['-'] + pre;
    if core == "" {
      assert v[1..] == pre;
    } else {
      assert v[1..] == core[1..] + ['-'] + pre && core == [core[0]] + core[1..];
      CutAt(core[1..], pre);
    }
  }

  function Dotted(p: string): string { Join([p, "0", "0"], '.') }

  lemma DottedSplits(p: string)
    requires Canonical(p)
    ensures Split(Dotted(p), '.') == [p, "0", "0"] && |Dotted(p)| == |p| + 4 && '-' !in Dotted(p)
    ensures forall s :: s in [p, "0", "0"] ==> Canonical(s)
  {
    var parts := [p, "0", "0"];
    assert forall c :: c in p ==> Digit(c);
    SplitJoin(parts, '.');
    assert parts[1..] == ["0", "0"] && parts[1..][1..] == ["0"];
    assert Join(["0", "0"], '.') == "0" + ['.'] + "0";
    assert Dotted(p) == p + ['.'] + ("0" + ['.'] + "0");
  }

  /** The version with this first part. */
  lemma CoreVersion(p: string)
    requires Canonical(p) && |p| <= 28
    ensures ValidVersion(Dotted(p)) && Core(Dotted(p)) == [p, "0", "0"]
  {
    hide Canonical, Split, Dotted;
    DottedSplits(p);
    CutNone(Dotted(p));
  }

  /** The prerelease of 1.0.0 with this one identifier. */
  function Prerelease(id: string): string { Dotted("1") + ['-'] + id }

  lemma PrereleaseVersion(id: string)
    requires ValidId(id) && |id| <= 26
    ensures ValidVersion(Prerelease(id)) && Core(Prerelease(id)) == ["1", "0", "0"]
    ensures SplitVersion(Prerelease(id)).1 == id && Split(id, '.') == [id]
  {
    hide Canonical, Split, Dotted, CutHyphen, ValidId;
    OneIsCanonical();
    DottedSplits("1");
    CutAt(Dotted("1"), id);
    NoDot(id);
    SplitNone(id, '.');
  }

  lemma OneIsCanonical()
    ensures Canonical("1") && Canonical("0")
  {}

  lemma NoDot(id: string)
    requires ValidId(id)
    ensures '.' !in id && id != ""
  {
    assert forall c :: c in id ==> IdChar(c);
  }

  lemma CoresDecide(p: string, q: string)
    requires Canonical(p) && Canonical(q) && |p| <= 28 && |q| <= 28 && CompareCore(p, q) != 0
    ensures Compared(Dotted(p), Dotted(q)) == CompareCore(p, q)
  {
    hide Canonical, CompareCore, Dotted, Split, CutHyphen;
    CoreVersion(p);
    CoreVersion(q);
  }

  lemma IdentifiersDecide(s: string, t: string)
    requires ValidId(s) && ValidId(t) && |s| <= 26 && |t| <= 26 && s != t && CompareIdentifier(s, t) != 0
    ensures Compared(Prerelease(s), Prerelease(t)) == CompareIdentifier(s, t)
  {
    hide ValidId, CompareIdentifier, CompareCores, Prerelease, Split, CutHyphen;
    NoDot(s);
    NoDot(t);
    PrereleaseVersion(s);
    PrereleaseVersion(t);
    SelfCores();
  }

  lemma SelfCores()
    ensures CompareCores(["1", "0", "0"], ["1", "0", "0"]) == 0
  {
    OneIsCanonical();
    CoresExactly(["1", "0", "0"], ["1", "0", "0"]);
  }

  lemma SmallNumbers()
    ensures Atoi("9") == Some(9) && Atoi("10") == Some(10) && Canonical("9") && Canonical("10")
  {
    assert Value("") == 0;
    assert "9"[..0] == "" && "1"[..0] == "" && "10"[..1] == "1";
    assert Value("9") == 9;
    assert Value("1") == 1;
    assert Value("10") == 10;
  }

  lemma Powers()
    ensures Pow10(17) == 100_000_000_000_000_000
    ensures Pow10(18) == 1_000_000_000_000_000_000
    ensures Pow10(19) == 10_000_000_000_000_000_000
  {
    assert Pow10(6) == 1_000_000;
    assert Pow10(12) == 1_000_000_000_000;
    assert Pow10(18) == 1_000_000_000_000_000_000;
  }

  lemma {:induction false} ZeroFirst(k: nat)
    requires k > 0
    ensures Zeros(k)[0] == '0'
  {
    assert Zeros(k)[0] in Zeros(k);
  }

  lemma BelowByText(s: string)
    requires |s| > 2 && s[0] == '1' && s[1] == '0'
    ensures CompareText("10", s) < 0 && CompareText(s, "9") < 0
  {
    assert "10"[1..] == "0" && "0"[1..] == "" && s[1..][1..] == s[2..];
    assert CompareText("0", s[1..]) == CompareText("", s[2..]);
  }

  /** Beyond the int range core parts fall back to text: 9.0.0, 10.0.0 and 10^19.0.0 are accepted and form a cycle. */
  lemma OversizedPartsCycle()
    ensures
      var u, v, w := Dotted("9"), Dotted("10"), Dotted("1" + Zeros(19));
      && ValidVersion(u)
      && ValidVersion(v)
      && ValidVersion(w)
      && Compared(u, v) < 0
      && Compared(v, w) < 0
      && Compared(w, u) < 0
  {
    hide Value, Compared, ValidVersion, CompareText, Dotted;
    var big := "1" + Zeros(19);
    Scaled('1', 19);
    Powers();
    ZeroFirst(19);
    BelowByText(big);
    SmallNumbers();
    ReadCore(big);
    SignOfDifference(9, 10);
    CoreVersion("9");
    CoreVersion("10");
    CoreVersion(big);
    CoresDecide("9", "10");
    CoresDecide("10", big);
    CoresDecide(big, "9");
  }

  lemma HyphenId(s: string)
    requires Digits(s)
    ensures ValidId("-" + s) && HyphenNumber("-" + s) && ("-" + s)[1..] == s
  {}

  lemma WrappedSigns(x: string, y: string, z: string)
    requires ValidId(x) && ValidId(y) && ValidId(z) && Digits(x) && HyphenNumber(y) && HyphenNumber(z)
    requires Value(x) == 300_000_000_000_000_000 && Value(y[1..]) == 9_000_000_000_000_000_000 && Value(z[1..]) == 1
    ensures CompareIdentifier(x, y) < 0 && CompareIdentifier(y, z) < 0 && CompareIdentifier(z, x) < 0
  {
    hide Value, CompareText, Atoi, ValidId;
    ReadIdentifier(x);
    ReadIdentifier(y);
    ReadIdentifier(z);
    SignOfDifference(300_000_000_000_000_000, -9_000_000_000_000_000_000);
    SignOfDifference(-9_000_000_000_000_000_000, -1);
    SignOfDifference(-1, 300_000_000_000_000_000);
  }

  /** Three identifiers in the int range whose differences wrap around. */
  lemma WrappedIdentifiers() returns (x: string, y: string, z: string)
    ensures ValidId(x) && ValidId(y) && ValidId(z) && |x| <= 26 && |y| <= 26 && |z| <= 26
    ensures Digits(x) && HyphenNumber(y) && HyphenNumber(z)
    ensures Value(x) == 300_000_000_000_000_000 && Value(y[1..]) == 9_000_000_000_000_000_000 && Value(z[1..]) == 1
    ensures x == "3" + Zeros(17) && y == "-" + ("9" + Zeros(18)) && z == "-" + ("1" + Zeros(0))
  {
    hide Value, Zeros;
    Scaled('3', 17);
    Scaled('9', 18);
    Scaled('1', 0);
    assert Pow10(0) == 1;
    Powers();
    x, y, z := "3" + Zeros(17), "-" + ("9" + Zeros(18)), "-" + ("1" + Zeros(0));
    HyphenId("9" + Zeros(18));
    HyphenId("1" + Zeros(0));
  }

  /** With every number in the int range the difference can still wrap around: 1.0.0-3*10^17, 1.0.0--9*10^18 and
      1.0.0--1 are accepted and form a cycle. */
  lemma WrappedDifferenceCycle()
    ensures
      var u, v, w := Prerelease("3" + Zeros(17)), Prerelease("-" + ("9" + Zeros(18))), Prerelease("-" + ("1" + Zeros(0)));
      && ValidVersion(u)
      && ValidVersion(v)
      && ValidVersion(w)
      && Compared(u, v) < 0
      && Compared(v, w) < 0
      && Compared(w, u) < 0
  {
    hide *;
    var x, y, z := WrappedIdentifiers();
    WrappedSigns(x, y, z);
    AllDifferent(x, y, z);
    PrereleaseVersion(x);
    PrereleaseVersion(y);
    PrereleaseVersion(z);
    IdentifiersDecide(x, y);
    IdentifiersDecide(y, z);
    IdentifiersDecide(z, x);
  }

  lemma AllDifferent(x: string, y: string, z: string)
    requires CompareIdentifier(x, y) < 0 && CompareIdentifier(y, z) < 0 && CompareIdentifier(z, x) < 0
    ensures x != y && y != z && z != x
  {
    hide CompareIdentifier;
    SelfIdentifier(x);
    SelfIdentifier(y);
  }
}
