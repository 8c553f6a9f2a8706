/**
 The tag-pattern engine: a hand-written parser from a pattern to tokens and a memoised
 backtracking matcher.  The parser is proved sound, complete and unambiguous against a grammar,
 and the matcher is proved to decide membership in the concatenation of the token languages.
 */
module TagGlob {
  datatype Range = Range(first: char, last: char)

  datatype Token =
    | Literal(c: char)
    | Star(globstar: bool, globstarSlash: bool)
    | Question
    | Class(ranges: seq<Range>)

  // ---------------------------------------------------------------- grammar of patterns

  /** `text` starts with one class member: a single rune or a range `a-b`. */
  ghost predicate Member(text: string, r: Range, n: nat) {
    && text != ""
    && text[0] !in "][\\/"
    && if text[0] != '-' && |text| > 2 && text[1] == '-' && text[2] != ']'
       then n == 3 && r == Range(text[0], text[2]) && text[2] !in "\\/"
            && r.first <= r.last && !(r.first <= '/' <= r.last)
       else n == 1 && r == Range(text[0], text[0])
  }

  /** The first `n` runes of `text` are the members `rs` and the closing bracket. */
  ghost predicate Members(text: string, rs: seq<Range>, n: nat) {
    if rs == [] then n == 1 && text != "" && text[0] == ']'
    else exists m: nat :: m <= n && m <= |text| && Member(text, rs[0], m) && Members(text[m..], rs[1..], n - m)
  }

  /** Length of the run of stars that `text` starts with. */
  function StarRun(text: string): (n: nat)
    ensures n <= |text| && (forall i :: 0 <= i < n ==> text[i] == '*') && (n < |text| ==> text[n] != '*')
  {
    if text != "" && text[0] == '*' then 1 + StarRun(text[1..]) else 0
  }

  const SPECIAL := "[]{}*?\\"

  /** The first `n` runes of `text` spell the token `t`. */
  ghost predicate Head(text: string, t: Token, n: nat) {
    && 0 < n <= |text|
    && match t
       case Literal(c) => n == 1 && text[0] == c && c !in SPECIAL
       case Question => n == 1 && text[0] == '?'
       case Star(g, s) =>
         && text[0] == '*' && n == StarRun(text)
         && g == (n >= 2)
         && s == (g && n < |text| && text[n] == '/')
       case Class(rs) =>
         && text[0] == '[' && |text| > 1 && text[1] !in "^!"
         && rs != [] && Members(text[1..], rs, n - 1)
  }

  /** `tokens` is a reading of the whole pattern. */
  ghost predicate Spells(text: string, tokens: seq<Token>) {
    if tokens == [] then text == ""
    else exists n: nat :: Head(text, tokens[0], n) && Spells(text[n..], tokens[1..])
  }

  lemma {:induction false} MembersUnique(text: string, rs: seq<Range>, n: nat, rs': seq<Range>, n': nat)
    requires Members(text, rs, n) && Members(text, rs', n')
    ensures rs == rs' && n == n'
    decreases |rs|
  {
    if rs != [] && rs' != [] {
      var m: nat :| m <= n && m <= |text| && Member(text, rs[0], m) && Members(text[m..], rs[1..], n - m);
      MembersUnique(text[m..], rs[1..], n - m, rs'[1..], n' - m);
    }
  }

  lemma HeadUnique(text: string, t: Token, n: nat, t': Token, n': nat)
    requires Head(text, t, n) && Head(text, t', n')
    ensures t == t' && n == n'
  {
    if t.Class? {
      MembersUnique(text[1..], t.ranges, n - 1, t'.ranges, n' - 1);
    }
  }

  /** The grammar is unambiguous. */
  lemma {:induction false} SpellsUnique(text: string, ts: seq<Token>, ts': seq<Token>)
    requires Spells(text, ts) && Spells(text, ts')
    ensures ts == ts'
    decreases |ts|
  {
    if ts != [] && ts' != [] {
      var n: nat :| Head(text, ts[0], n) && Spells(text[n..], ts[1..]);
      var n': nat :| Head(text, ts'[0], n') && Spells(text[n'..], ts'[1..]);
      HeadUnique(text, ts[0], n, ts'[0], n');
      SpellsUnique(text[n..], ts[1..], ts'[1..]);
    }
  }

  // ---------------------------------------------------------------- parsing

  /** Having read `tokens` from the first `index` runes neither loses nor adds a reading. */
  ghost predicate Progress(pattern: string, index: nat, tokens: seq<Token>)
    requires index <= |pattern|
  {
    forall ts :: Spells(pattern, ts) <==> tokens <= ts && Spells(pattern[index..], ts[|tokens|..])
  }

  lemma SpellsHead(text: string, t: Token, n: nat, ts: seq<Token>)
    requires Head(text, t, n)
    ensures Spells(text, ts) <==> ts != [] && ts[0] == t && Spells(text[n..], ts[1..])
  {
    if ts != [] && Spells(text, ts) {
      var n': nat :| Head(text, ts[0], n') && Spells(text[n'..], ts[1..]);
      HeadUnique(text, t, n, ts[0], n');
    }
  }

  lemma Advance(pattern: string, index: nat, tokens: seq<Token>, t: Token, n: nat)
    requires index <= |pattern| && Progress(pattern, index, tokens) && Head(pattern[index..], t, n)
    ensures index + n <= |pattern| && Progress(pattern, index + n, tokens + [t])
  {
    hide Spells, Members;
    forall ts
      ensures Spells(pattern, ts) <==> tokens + [t] <= ts && Spells(pattern[index + n..], ts[|tokens| + 1..])
    {
      assert Spells(pattern, ts) <==> tokens <= ts && Spells(pattern[index..], ts[|tokens|..]);
      if tokens <= ts {
        SpellsHead(pattern[index..], t, n, ts[|tokens|..]);
        assert pattern[index..][n..] == pattern[index + n..];
        if |ts| > |tokens| {
          assert ts[|tokens|..][1..] == ts[|tokens| + 1..];
        }
      }
    }
  }

  lemma Stuck(pattern: string, index: nat, tokens: seq<Token>)
    requires index < |pattern| && Progress(pattern, index, tokens)
    requires forall t, n: nat :: !Head(pattern[index..], t, n)
    ensures forall ts :: !Spells(pattern, ts)
  {
    forall ts ensures !Spells(pattern, ts) {
      assert Spells(pattern, ts) <==> tokens <= ts && Spells(pattern[index..], ts[|tokens|..]);
    }
  }

  /** The same bookkeeping for the members of one class, read from `index` on. */
  ghost predicate ClassProgress(text: string, index: nat, rs: seq<Range>)
    requires index <= |text|
  {
    forall all, n: nat :: Members(text, all, n) <==>
      rs <= all && index <= n && Members(text[index..], all[|rs|..], n - index)
  }

  lemma MembersHead(text: string, r: Range, m: nat, rs: seq<Range>, n: nat)
    requires Member(text, r, m) && m <= |text|
    ensures Members(text, rs, n) <==> rs != [] && rs[0] == r && m <= n && Members(text[m..], rs[1..], n - m)
  {
    if rs != [] && Members(text, rs, n) {
      var m': nat :| m' <= n && m' <= |text| && Member(text, rs[0], m') && Members(text[m'..], rs[1..], n - m');
    }
  }

  lemma ClassAdvance(text: string, index: nat, rs: seq<Range>, r: Range, m: nat)
    requires index <= |text| && ClassProgress(text, index, rs) && Member(text[index..], r, m) && index + m <= |text|
    ensures ClassProgress(text, index + m, rs + [r])
  {
    hide Member, Members;
    forall all, n: nat
      ensures Members(text, all, n) <==>
        rs + [r] <= all && index + m <= n && Members(text[index + m..], all[|rs| + 1..], n - (index + m))
    {
      assert Members(text, all, n) <==> rs <= all && index <= n && Members(text[index..], all[|rs|..], n - index);
      if rs <= all && index <= n {
        MembersHead(text[index..], r, m, all[|rs|..], n - index);
        assert text[index..][m..] == text[index + m..];
        if |all| > |rs| {
          assert all[|rs|..][1..] == all[|rs| + 1..];
        }
      }
    }
  }

  lemma ClassStuck(text: string, index: nat, rs: seq<Range>)
    requires index <= |text| && ClassProgress(text, index, rs)
    requires forall r, m: nat :: !Member(text[index..], r, m)
    requires index < |text| ==> text[index] != ']'
    ensures forall all, n: nat :: !Members(text, all, n)
  {
    forall all, n: nat ensures !Members(text, all, n) {
      assert Members(text, all, n) <==> rs <= all && index <= n && Members(text[index..], all[|rs|..], n - index);
    }
  }

  lemma ClassStart(text: string)
    ensures ClassProgress(text, 0, [])
  {
    assert text[0..] == text;
    assert forall all: seq<Range> :: all[0..] == all;
  }

  /** A closing bracket after at least one member ends the class; after none it makes it unreadable. */
  lemma ClassEnd(text: string, body: string, at: nat, rs: seq<Range>)
    requires text != "" && text[0] == '[' && body == text[1..] && |text| > 1 && text[1] !in "^!"
    requires at < |body| && body[at] == ']' && ClassProgress(body, at, rs)
    ensures rs != [] ==> Head(text, Class(rs), at + 2)
    ensures rs == [] ==> forall t, n: nat :: !Head(text, t, n)
  {
    assert rs[|rs|..] == [];
    assert Members(body[at..], [], 1);
    assert Members(body, rs, at + 1);
    assert rs == [] ==> at == 0;
  }

  lemma ClassUnreadable(text: string, body: string, at: nat, rs: seq<Range>)
    requires text != "" && text[0] == '[' && body == text[1..]
    requires at <= |body| && ClassProgress(body, at, rs)
    requires forall r, m: nat :: !Member(body[at..], r, m)
    requires at < |body| ==> body[at] != ']'
    ensures forall t, n: nat :: !Head(text, t, n)
  {
    ClassStuck(body, at, rs);
  }

  /** parseGithubTagGlobClass: finds the class at `start`, exactly when the grammar has one there. */
  method ParseClass(pattern: string, start: nat) returns (ok: bool, token: Token, next: nat)
    requires start < |pattern| && pattern[start] == '['
    ensures ok ==> token.Class? && start < next <= |pattern| && Head(pattern[start..], token, next - start)
    ensures !ok ==> forall t, n: nat :: !Head(pattern[start..], t, n)
  {
    hide ClassProgress, Members;
    token, next := Question, start;
    ghost var text := pattern[start..];
    if start + 1 >= |pattern| || pattern[start + 1] == '^' || pattern[start + 1] == '!' {
      return false, token, next;
    }
    ghost var body := text[1..];
    var index, ranges := start + 1, [];
    ClassStart(body);
    while true
      invariant start + 1 <= index <= |pattern|
      invariant ClassProgress(body, index - start - 1, ranges)
      decreases |pattern| - index
    {
      ghost var at := index - start - 1;
      assert body[at..] == pattern[index..];
      if index >= |pattern| {
        ClassUnreadable(text, body, at, ranges);
        return false, token, next;
      }
      if pattern[index] == ']' {
        ClassEnd(text, body, at, ranges);
        if ranges == [] {
          return false, token, next;
        }
        return true, Class(ranges), index + 1;
      }
      if pattern[index] == '[' || pattern[index] == '\\' || pattern[index] == '/' {
        ClassUnreadable(text, body, at, ranges);
        return false, token, next;
      }
      var first := pattern[index];
      index := index + 1;
      if first != '-' && index < |pattern| && pattern[index] == '-' && index + 1 < |pattern| && pattern[index + 1] != ']' {
        var last := pattern[index + 1];
        if last == '\\' || last == '/' || first > last || (first <= '/' && '/' <= last) {
          ClassUnreadable(text, body, at, ranges);
          return false, token, next;
        }
        ClassAdvance(body, at, ranges, Range(first, last), 3);
        ranges := ranges + [Range(first, last)];
        index := index + 2;
      } else {
        ClassAdvance(body, at, ranges, Range(first, first), 1);
        ranges := ranges + [Range(first, first)];
      }
    }
  }

  /** A rune the grammar never accepts makes the whole pattern unreadable. */
  lemma {:induction false} BackslashUnreadable(text: string, ts: seq<Token>)
    requires '\\' in text
    ensures !Spells(text, ts)
    decreases |ts|
  {
    if Spells(text, ts) {
      assert ts != [];
      var n: nat :| Head(text, ts[0], n) && Spells(text[n..], ts[1..]);
      if ts[0].Class? {
        MembersNoBackslash(text[1..], ts[0].ranges, n - 1);
        assert forall i :: 1 <= i < n ==> text[i] == text[1..][i - 1];
      }
      var i :| 0 <= i < |text| && text[i] == '\\';
      assert text[n..][i - n] == '\\';
      BackslashUnreadable(text[n..], ts[1..]);
    }
  }

  lemma {:induction false} MembersNoBackslash(text: string, rs: seq<Range>, n: nat)
    requires Members(text, rs, n)
    ensures n <= |text| && '\\' !in text[..n]
    decreases |rs|
  {
    if rs != [] {
      var m: nat :| m <= n && m <= |text| && Member(text, rs[0], m) && Members(text[m..], rs[1..], n - m);
      MembersNoBackslash(text[m..], rs[1..], n - m);
      assert text[..n] == text[..m] + text[m..][..n - m];
    }
  }

  lemma Start(pattern: string)
    ensures Progress(pattern, 0, [])
  {
    assert pattern[0..] == pattern;
    assert forall ts: seq<Token> :: ts[0..] == ts;
  }

  lemma Finish(pattern: string, tokens: seq<Token>)
    requires Progress(pattern, |pattern|, tokens)
    ensures Spells(pattern, tokens)
  {
    assert tokens[|tokens|..] == [];
    assert Spells(pattern[|pattern|..], tokens[|tokens|..]);
  }

  /** parseGithubTagGlob: succeeds exactly on the readable patterns, with their one reading. */
  method Parse(pattern: string) returns (ok: bool, tokens: seq<Token>)
    ensures ok ==> Spells(pattern, tokens)
    ensures !ok ==> forall ts :: !Spells(pattern, ts)
  {
    hide Progress, Members;
    tokens := [];
    if '\\' in pattern {
      forall ts { BackslashUnreadable(pattern, ts); }
      return false, [];
    }
    var index := 0;
    Start(pattern);
    while index < |pattern|
      invariant index <= |pattern|
      invariant Progress(pattern, index, tokens)
    {
      var c := pattern[index];
      var token, next := Literal(c), index + 1;
      if c == '[' {
        var found;
        found, token, next := ParseClass(pattern, index);
        if !found {
          Stuck(pattern, index, tokens);
          return false, [];
        }
      } else if c == ']' || c == '{' || c == '}' {
        Stuck(pattern, index, tokens);
        return false, [];
      } else if c == '*' {
        next := index;
        while next < |pattern| && pattern[next] == '*'
          invariant index <= next <= |pattern|
          invariant forall i :: index <= i < next ==> pattern[i] == '*'
        {
          next := next + 1;
        }
        StarRunIs(pattern[index..], next - index);
        var isGlobstar := next - index >= 2;
        token := Star(isGlobstar, isGlobstar && next < |pattern| && pattern[next] == '/');
      } else if c == '?' {
        token := Question;
      }
      Advance(pattern, index, tokens, token, next - index);
      tokens, index := tokens + [token], next;
    }
    Finish(pattern, tokens);
    return true, tokens;
  }

  lemma StarRunIs(text: string, n: nat)
    requires n <= |text| && (forall i :: 0 <= i < n ==> text[i] == '*') && (n < |text| ==> text[n] != '*')
    ensures StarRun(text) == n
  {
    assert !(StarRun(text) < n) && !(n < StarRun(text));
  }
}
