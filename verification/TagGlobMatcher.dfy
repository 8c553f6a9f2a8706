/**
 What a pattern means, and the memoised matcher that decides it.  A token list denotes the
 concatenation of the languages of its pieces; `**` directly before `/` is one piece with it.
 */
module TagGlobMatcher {
  import opened TagGlob

  datatype Piece = Rune(c: char) | Segment | Path | Directories | AnyRune | OneOf(ranges: seq<Range>)

  /** Every `**` marked as directory-matching is followed by a literal slash. */
  predicate Guarded(ts: seq<Token>) {
    forall i :: 0 <= i < |ts| && ts[i].Star? && ts[i].globstarSlash ==>
      ts[i].globstar && i + 1 < |ts| && ts[i + 1] == Literal('/')
  }

  function Pieces(ts: seq<Token>): seq<Piece>
    requires Guarded(ts)
  {
    if ts == [] then []
    else match ts[0]
      case Star(true, true) => [Directories] + Pieces(ts[2..])
      case Star(true, false) => [Path] + Pieces(ts[1..])
      case Star(false, _) => [Segment] + Pieces(ts[1..])
      case Literal(c) => [Rune(c)] + Pieces(ts[1..])
      case Question => [AnyRune] + Pieces(ts[1..])
      case Class(rs) => [OneOf(rs)] + Pieces(ts[1..])
  }

  ghost predicate InRanges(rs: seq<Range>, c: char) {
    exists r :: r in rs && r.first <= c <= r.last
  }

  /** The language of one piece. */
  ghost predicate Denotes(p: Piece, w: string) {
    match p
    case Rune(c) => w == [c]
    case Segment => '/' !in w
    case Path => true
    case Directories => w == "" || w[|w| - 1] == '/'
    case AnyRune => |w| == 1 && w[0] != '/'
    case OneOf(rs) => |w| == 1 && w[0] != '/' && InRanges(rs, w[0])
  }

  function Join(ws: seq<string>): string {
    if ws == [] then "" else ws[0] + Join(ws[1..])
  }

  ghost predicate Factors(ps: seq<Piece>, ws: seq<string>) {
    |ws| == |ps| && forall i :: 0 <= i < |ps| ==> Denotes(ps[i], ws[i])
  }

  /** Membership in the concatenation of the piece languages. */
  ghost predicate InLanguage(ps: seq<Piece>, v: string) {
    exists ws :: Factors(ps, ws) && Join(ws) == v
  }

  // ---------------------------------------------------------------- the parser keeps its guard

  /** The guard after `**` `/` always holds on parser output. */
  lemma {:induction false} ParsedIsGuarded(text: string, ts: seq<Token>)
    requires Spells(text, ts)
    ensures Guarded(ts)
    decreases |ts|
  {
    if ts != [] {
      var n: nat :| Head(text, ts[0], n) && Spells(text[n..], ts[1..]);
      ParsedIsGuarded(text[n..], ts[1..]);
      forall i | 0 <= i < |ts| && ts[i].Star? && ts[i].globstarSlash
        ensures ts[i].globstar && i + 1 < |ts| && ts[i + 1] == Literal('/')
      {
        if i == 0 {
          SlashIsLiteral(text[n..], ts[1..]);
        } else {
          assert ts[i] == ts[1..][i - 1];
        }
      }
    }
  }

  lemma SlashIsLiteral(text: string, ts: seq<Token>)
    requires Spells(text, ts) && text != "" && text[0] == '/'
    ensures ts != [] && ts[0] == Literal('/')
  {
    var n: nat :| Head(text, ts[0], n) && Spells(text[n..], ts[1..]);
  }

  lemma GuardedSuffix(ts: seq<Token>, k: nat)
    requires Guarded(ts) && k <= |ts|
    ensures Guarded(ts[k..])
  {
    forall i | 0 <= i < |ts[k..]| && ts[k..][i].Star? && ts[k..][i].globstarSlash
      ensures ts[k..][i].globstar && i + 1 < |ts[k..]| && ts[k..][i + 1] == Literal('/')
    {
      assert ts[k + i] == ts[k..][i];
    }
  }

  // ---------------------------------------------------------------- one piece at a time

  lemma Cons(p: Piece, ps: seq<Piece>, v: string, k: nat)
    requires k <= |v| && Denotes(p, v[..k]) && InLanguage(ps, v[k..])
    ensures InLanguage([p] + ps, v)
  {
    var ws :| Factors(ps, ws) && Join(ws) == v[k..];
    var all := [v[..k]] + ws;
    assert all[1..] == ws;
    assert Factors([p] + ps, all);
    assert Join(all) == v;
  }

  lemma Uncons(p: Piece, ps: seq<Piece>, v: string) returns (k: nat)
    requires InLanguage([p] + ps, v)
    ensures k <= |v| && Denotes(p, v[..k]) && InLanguage(ps, v[k..])
  {
    var ws :| Factors([p] + ps, ws) && Join(ws) == v;
    k := |ws[0]|;
    assert v == ws[0] + Join(ws[1..]);
    assert v[..k] == ws[0] && v[k..] == Join(ws[1..]);
    assert Factors(ps, ws[1..]) by {
      assert forall i :: 0 <= i < |ps| ==> ps[i] == ([p] + ps)[i + 1];
    }
    assert Denotes(p, ws[0]) by { assert ([p] + ps)[0] == p; }
  }

  predicate OneRune(p: Piece) { p.Rune? || p.AnyRune? || p.OneOf? }

  lemma StepRune(p: Piece, ps: seq<Piece>, v: string)
    requires OneRune(p)
    ensures InLanguage([p] + ps, v) <==> v != "" && Denotes(p, [v[0]]) && InLanguage(ps, v[1..])
  {
    hide InLanguage;
    if InLanguage([p] + ps, v) {
      var k := Uncons(p, ps, v);
      assert v[..k] == [v[0]];
    }
    if v != "" && Denotes(p, [v[0]]) && InLanguage(ps, v[1..]) {
      assert v[..1] == [v[0]];
      Cons(p, ps, v, 1);
    }
  }

  /** `*` and `**` either stop here or take one more rune that they may take. */
  lemma StepStar(p: Piece, ps: seq<Piece>, v: string)
    requires p.Segment? || p.Path?
    ensures InLanguage([p] + ps, v) <==>
      InLanguage(ps, v) || (v != "" && (p.Path? || v[0] != '/') && InLanguage([p] + ps, v[1..]))
  {
    hide InLanguage;
    if InLanguage([p] + ps, v) {
      var k := Uncons(p, ps, v);
      if k == 0 {
        assert v[0..] == v;
      } else {
        assert v[1..][..k - 1] == v[..k][1..] && v[1..][k - 1..] == v[k..];
        assert v[0] == v[..k][0];
        Cons(p, ps, v[1..], k - 1);
      }
    }
    if InLanguage(ps, v) {
      assert v[0..] == v;
      Cons(p, ps, v, 0);
    }
    if v != "" && (p.Path? || v[0] != '/') && InLanguage([p] + ps, v[1..]) {
      var k := Uncons(p, ps, v[1..]);
      assert v[..k + 1] == [v[0]] + v[1..][..k] && v[k + 1..] == v[1..][k..];
      Cons(p, ps, v, k + 1);
    }
  }

  ghost predicate AfterSlash(ps: seq<Piece>, v: string, i: nat)
    requires i < |v|
  {
    v[i] == '/' && InLanguage(ps, v[i + 1..])
  }

  /** `**` `/` takes nothing, or everything up to and including some slash. */
  lemma StepDirectories(ps: seq<Piece>, v: string)
    ensures InLanguage([Directories] + ps, v) <==>
      InLanguage(ps, v) || exists i: nat :: i < |v| && AfterSlash(ps, v, i)
  {
    hide InLanguage;
    if InLanguage([Directories] + ps, v) {
      var k := Uncons(Directories, ps, v);
      if k == 0 {
        assert v[0..] == v;
      } else {
        assert AfterSlash(ps, v, k - 1);
      }
    }
    if InLanguage(ps, v) {
      assert v[0..] == v;
      Cons(Directories, ps, v, 0);
    }
    if i: nat :| i < |v| && AfterSlash(ps, v, i) {
      Cons(Directories, ps, v, i + 1);
    }
  }

  // ---------------------------------------------------------------- the matcher

  /** githubTagGlobClassMatches. */
  method ClassMatches(ranges: seq<Range>, value: char) returns (b: bool)
    ensures b <==> Denotes(OneOf(ranges), [value])
  {
    if value == '/' { return false; }
    for i := 0 to |ranges|
      invariant forall r :: r in ranges[..i] ==> !(r.first <= value <= r.last)
    {
      if ranges[i].first <= value && value <= ranges[i].last { return true; }
      assert ranges[..i + 1] == ranges[..i] + [ranges[i]];
    }
    assert ranges[..|ranges|] == ranges;
    return false;
  }

  type Key = (nat, nat)

  /** The state captured by the recursive closure: the answers so far and the keys entered so far. */
  class Matcher {
    const tokens: seq<Token>
    const value: string
    var cache: map<Key, bool>
    var seen: set<Key>

    constructor (tokens: seq<Token>, value: string)
      ensures this.tokens == tokens && this.value == value
      ensures cache == map[] && seen == {}
    {
      this.tokens, this.value := tokens, value;
      cache, seen := map[], {};
    }

    /** The right answer for a key: the rest of the value is in the language of the rest of the tokens. */
    ghost predicate Answer(p: nat, v: nat)
      requires Guarded(tokens) && p <= |tokens| && v <= |value|
    {
      GuardedSuffix(tokens, p);
      InLanguage(Pieces(tokens[p..]), value[v..])
    }

    /** Every entered key that is not on the call stack holds the right answer. */
    ghost predicate Consistent(stack: set<Key>)
      requires Guarded(tokens)
      reads this
    {
      forall k :: k in seen && k !in stack ==>
        k.0 <= |tokens| && k.1 <= |value| && k in cache && cache[k] == Answer(k.0, k.1)
    }

    /** Callers on the stack sit strictly before the key in the (pattern, value) order. */
    ghost predicate Above(stack: set<Key>, p: nat, v: nat) {
      forall k :: k in stack ==> k.0 < p || (k.0 == p && k.1 < v)
    }

    method Match(p: nat, v: nat, ghost stack: set<Key>) returns (matched: bool)
      requires Guarded(tokens) && p <= |tokens| && v <= |value|
      requires Consistent(stack) && Above(stack, p, v)
      modifies this
      ensures matched == Answer(p, v)
      ensures Consistent(stack)
      decreases |tokens| - p, |value| - v
    {
      hide InLanguage, Denotes, Guarded;
      var key := (p, v);
      if key in seen {
        return if key in cache then cache[key] else false;
      }
      seen := seen + {key};
      matched := false;
      ghost var below := stack + {key};
      ghost var rest, word := tokens[p..], value[v..];
      GuardedSuffix(tokens, p);
      if p == |tokens| {
        matched := v == |value|;
        EmptyLanguage(word);
      } else {
        Unfold(p, v);
        GuardedSuffix(tokens, p + 1);
        match tokens[p] {
          case Star(globstar, globstarSlash) =>
            if globstarSlash {
              var starEnd := p + 1;
              if starEnd < |tokens| && tokens[starEnd] == Literal('/') {
                matched := MatchDirectories(p, v, below);
              }
            } else if globstar {
              matched := Match(p + 1, v, below);
              if !matched && v < |value| {
                matched := Match(p, v + 1, below);
              }
            } else {
              matched := Match(p + 1, v, below);
              if !matched && v < |value| && value[v] != '/' {
                matched := Match(p, v + 1, below);
              }
            }
          case Question =>
            if v < |value| && value[v] != '/' {
              matched := Match(p + 1, v + 1, below);
            }
          case Class(ranges) =>
            if v < |value| {
              matched := ClassMatches(ranges, value[v]);
              if matched {
                matched := Match(p + 1, v + 1, below);
              }
            }
          case Literal(c) =>
            if v < |value| && c == value[v] {
              matched := Match(p + 1, v + 1, below);
            }
        }
      }
      cache := cache[key := matched];
    }

    /** The loop of the directory case: after each slash in turn, try the rest. */
    method MatchDirectories(p: nat, v: nat, ghost below: set<Key>) returns (matched: bool)
      requires Guarded(tokens) && p + 1 < |tokens| && v <= |value|
      requires tokens[p] == Star(true, true) && tokens[p + 1] == Literal('/')
      requires Consistent(below) && Above(below, p, v + 1)
      modifies this
      ensures matched == Answer(p, v)
      ensures Consistent(below)
      decreases |tokens| - p, |value| - v, 0
    {
      hide InLanguage, Denotes, Guarded;
      GuardedSuffix(tokens, p);
      GuardedSuffix(tokens, p + 2);
      ghost var ps := Pieces(tokens[p + 2..]);
      ghost var word := value[v..];
      assert tokens[p..][2..] == tokens[p + 2..];
      StepDirectories(ps, word);
      matched := Match(p + 2, v, below);
      var index := v;
      while !matched && index < |value|
        invariant v <= index <= |value|
        invariant Consistent(below)
        invariant matched ==> Answer(p, v)
        invariant !matched ==> !InLanguage(ps, word) && forall i: nat :: i < index - v ==> !AfterSlash(ps, word, i)
      {
        assert word[index - v] == value[index] && word[index - v + 1..] == value[index + 1..];
        if value[index] == '/' {
          matched := Match(p + 2, index + 1, below);
          assert matched ==> AfterSlash(ps, word, index - v);
        }
        index := index + 1;
      }
    }

    /** What the answer at a key is in terms of later keys. */
    lemma Unfold(p: nat, v: nat)
      requires Guarded(tokens) && p < |tokens| && v <= |value|
      ensures match tokens[p]
        case Star(g, s) =>
          (!s ==> (Answer(p, v) <==> Answer(p + 1, v) || (v < |value| && (g || value[v] != '/') && Answer(p, v + 1))))
          && (s ==> g && p + 1 < |tokens| && tokens[p + 1] == Literal('/'))
        case Question => Answer(p, v) <==> v < |value| && value[v] != '/' && Answer(p + 1, v + 1)
        case Class(rs) => Answer(p, v) <==> v < |value| && Denotes(OneOf(rs), [value[v]]) && Answer(p + 1, v + 1)
        case Literal(c) => Answer(p, v) <==> v < |value| && c == value[v] && Answer(p + 1, v + 1)
    {
      hide InLanguage;
      GuardedSuffix(tokens, p);
      GuardedSuffix(tokens, p + 1);
      var ps := Pieces(tokens[p + 1..]);
      assert tokens[p..][1..] == tokens[p + 1..];
      var word := value[v..];
      if v < |value| { assert word[1..] == value[v + 1..] && word[0] == value[v]; }
      match tokens[p] {
        case Star(g, s) =>
          if !s { StepStar(if g then Path else Segment, ps, word); }
        case Question => StepRune(AnyRune, ps, word);
        case Class(rs) => StepRune(OneOf(rs), ps, word);
        case Literal(c) => StepRune(Rune(c), ps, word);
      }
    }
  }

  lemma EmptyLanguage(v: string)
    ensures InLanguage([], v) <==> v == ""
  {
    if v == "" { assert Factors([], []) && Join([]) == v; }
  }

  /** The value is in the language of the pattern's reading; an unreadable pattern has no values. */
  ghost predicate GlobAccepts(pattern: string, value: string) {
    exists ts :: Spells(pattern, ts) && Guarded(ts) && InLanguage(Pieces(ts), value)
  }

  /** githubTagGlobMatches decides the language of the pattern. */
  method GlobMatches(pattern: string, value: string) returns (b: bool)
    ensures b <==> GlobAccepts(pattern, value)
  {
    var valid, tokens := Parse(pattern);
    if !valid { return false; }
    ParsedIsGuarded(pattern, tokens);
    var m := new Matcher(tokens, value);
    b := m.Match(0, 0, {});
    assert tokens[0..] == tokens && value[0..] == value;
    forall ts | Spells(pattern, ts) { SpellsUnique(pattern, tokens, ts); }
  }

  // ---------------------------------------------------------------- path components

  function Slashes(w: string): nat {
    if w == "" then 0 else (if w[0] == '/' then 1 else 0) + Slashes(w[1..])
  }

  function LiteralSlashes(ts: seq<Token>): nat {
    if ts == [] then 0 else (if ts[0] == Literal('/') then 1 else 0) + LiteralSlashes(ts[1..])
  }

  lemma {:induction false} SlashesSplit(w: string, k: nat)
    requires k <= |w|
    ensures Slashes(w) == Slashes(w[..k]) + Slashes(w[k..])
    decreases k
  {
    if k == 0 {
      assert w[0..] == w;
    } else {
      SlashesSplit(w[1..], k - 1);
      assert w[..k][1..] == w[1..][..k - 1] && w[1..][k - 1..] == w[k..];
    }
  }

  lemma {:induction false} NoSlashes(w: string)
    requires '/' !in w
    ensures Slashes(w) == 0
    decreases |w|
  {
    if w != "" { NoSlashes(w[1..]); }
  }

  /** Without a `**`, every accepted value has exactly the slashes the pattern spells out. */
  lemma {:induction false} NoGlobstarKeepsSlashes(ts: seq<Token>, value: string)
    requires Guarded(ts) && (forall t :: t in ts && t.Star? ==> !t.globstar)
    requires InLanguage(Pieces(ts), value)
    ensures Slashes(value) == LiteralSlashes(ts)
    decreases |ts|
  {
    if ts == [] {
      EmptyLanguage(value);
    } else {
      GuardedSuffix(ts, 1);
      var p := Pieces(ts)[0];
      assert ts[0] in ts;
      assert Pieces(ts) == [p] + Pieces(ts[1..]);
      var k := Uncons(p, Pieces(ts[1..]), value);
      NoGlobstarKeepsSlashes(ts[1..], value[k..]);
      SlashesSplit(value, k);
      if p.Segment? { NoSlashes(value[..k]); }
    }
  }

  // ---------------------------------------------------------------- ruleset conditions

  const TAG_PREFIX := "refs/tags/"

  /** What a ruleset pattern selects, spelled as a bare label or as a qualified reference. */
  ghost predicate Selects(pattern: string, tag: string) {
    && pattern != ""
    && (pattern == "~ALL"
        || (pattern != "~DEFAULT_BRANCH" && GlobAccepts(pattern, if TAG_PREFIX <= pattern then TAG_PREFIX + tag else tag)))
  }

  /** githubTagPatternMatches. */
  method PatternMatches(pattern: string, tag: string) returns (b: bool)
    ensures b <==> Selects(pattern, tag)
  {
    if pattern == "" { return false; }
    if pattern == "~ALL" { return true; }
    if pattern == "~DEFAULT_BRANCH" { return false; }
    var candidate := tag;
    if TAG_PREFIX <= pattern { candidate := TAG_PREFIX + tag; }
    b := GlobMatches(pattern, candidate);
  }

  /** rulesetRefNameMatches: an exclusion always wins, and a missing condition selects nothing. */
  method RefNameMatches(includes: seq<string>, excludes: seq<string>, tag: string) returns (b: bool)
    ensures b <==> (exists p :: p in includes && Selects(p, tag)) && !exists p :: p in excludes && Selects(p, tag)
  {
    hide Selects;
    if |includes| == 0 { return false; }
    for i := 0 to |excludes|
      invariant forall p :: p in excludes[..i] ==> !Selects(p, tag)
    {
      var hit := PatternMatches(excludes[i], tag);
      if hit { return false; }
      assert excludes[..i + 1] == excludes[..i] + [excludes[i]];
    }
    assert excludes[..|excludes|] == excludes;
    for i := 0 to |includes|
      invariant forall p :: p in includes[..i] ==> !Selects(p, tag)
    {
      var hit := PatternMatches(includes[i], tag);
      if hit { return true; }
      assert includes[..i + 1] == includes[..i] + [includes[i]];
    }
    assert includes[..|includes|] == includes;
    return false;
  }

  /** A prefix of ordinary runes is matched rune for rune. */
  lemma {:induction false} LiteralPrefix(prefix: string, pattern: string, value: string)
    requires forall c :: c in prefix ==> c !in SPECIAL
    ensures GlobAccepts(prefix + pattern, prefix + value) <==> GlobAccepts(pattern, value)
    decreases |prefix|
  {
    if prefix == "" {
      assert prefix + pattern == pattern && prefix + value == value;
    } else {
      hide GlobAccepts, Spells;
      LiteralPrefix(prefix[1..], pattern, value);
      assert prefix + pattern == [prefix[0]] + (prefix[1..] + pattern);
      assert prefix + value == [prefix[0]] + (prefix[1..] + value);
      LiteralRune(prefix[0], prefix[1..] + pattern, prefix[1..] + value);
    }
  }

  lemma LiteralRune(c: char, pattern: string, value: string)
    requires c !in SPECIAL
    ensures GlobAccepts([c] + pattern, [c] + value) <==> GlobAccepts(pattern, value)
  {
    hide InLanguage, Spells, Guarded;
    var text := [c] + pattern;
    assert text[1..] == pattern && ([c] + value)[1..] == value;
    assert Head(text, Literal(c), 1);
    if GlobAccepts(pattern, value) {
      var ts :| Spells(pattern, ts) && Guarded(ts) && InLanguage(Pieces(ts), value);
      var all := [Literal(c)] + ts;
      assert all[1..] == ts;
      SpellsHead(text, Literal(c), 1, all);
      ParsedIsGuarded(text, all);
      StepRune(Rune(c), Pieces(ts), [c] + value);
    }
    if GlobAccepts(text, [c] + value) {
      var all :| Spells(text, all) && Guarded(all) && InLanguage(Pieces(all), [c] + value);
      SpellsHead(text, Literal(c), 1, all);
      ParsedIsGuarded(pattern, all[1..]);
      StepRune(Rune(c), Pieces(all[1..]), [c] + value);
    }
  }

  /** Spelling a label pattern as a qualified reference does not change which tags it selects. */
  lemma QualifiedSelectsTheSame(pattern: string, tag: string)
    requires pattern != "" && pattern != "~ALL" && pattern != "~DEFAULT_BRANCH" && !(TAG_PREFIX <= pattern)
    ensures Selects(TAG_PREFIX + pattern, tag) <==> Selects(pattern, tag)
  {
    LiteralPrefix(TAG_PREFIX, pattern, tag);
    assert TAG_PREFIX <= TAG_PREFIX + pattern;
    assert (TAG_PREFIX + pattern)[0] == 'r';
  }
}
