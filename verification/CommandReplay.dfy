/**
 Stored admin commands against the relay's command interpreter: replaying the stored rows on a
 fresh server must rebuild the state that the whole history of commands produced.
 */
module CommandReplay {
  import opened Text
  import opened Wrappers

  datatype Field = Threshold | StartCheck | LimitSpeed | TotalBandwidth | SingleBandwidth
  datatype List = Black | Block

  /** The relay's state; a field that was never set keeps the server's default. */
  datatype Server = Server(black: set<string>, blocked: set<string>, settings: map<Field, int>) {
    function Get(l: List): set<string> { if l.Black? then black else blocked }
    function Put(l: List, s: set<string>): Server { if l.Black? then this.(black := s) else this.(blocked := s) }
    function Setting(f: Field): Option<int> { if f in settings then Some(settings[f]) else None }
  }

  const FRESH := Server({}, {}, map[])

  /** The number a field stores for an argument, if the argument parses to a positive value. */
  type Parser = (Field, string) -> Option<int>

  const ADD := "-add"
  const REMOVE := "-remove"

  function Base(l: List): string { if l.Black? then "blacklist" else "blocklist" }

  /** What a command name makes the server do with its first argument. */
  datatype Action = Add(list: List) | Remove(list: List) | Set(field: Field) | Nothing

  function ActionOf(name: string): Action {
    if name == Base(Black) + ADD || name == "ba" then Add(Black)
    else if name == Base(Black) + REMOVE || name == "br" then Remove(Black)
    else if name == Base(Block) + ADD || name == "Ba" then Add(Block)
    else if name == Base(Block) + REMOVE || name == "Br" then Remove(Block)
    else if name == "downgrade-threshold" || name == "dt" then Set(Threshold)
    else if name == "downgrade-start-check" || name == "t" then Set(StartCheck)
    else if name == "limit-speed" || name == "ls" then Set(LimitSpeed)
    else if name == "total-bandwidth" || name == "tb" then Set(TotalBandwidth)
    else if name == "single-bandwidth" || name == "sb" then Set(SingleBandwidth)
    else Nothing
  }

  /** The state-changing arms of check_cmd. */
  function Execute(parse: Parser, s: Server, a: Action, arg: string): Server {
    match a
    case Add(l) => s.Put(l, s.Get(l) + Fields(arg))
    case Remove(l) => s.Put(l, if arg == "all" then {} else s.Get(l) - Fields(arg))
    case Set(f) =>
      var v := parse(f, arg);
      if v.Some? then s.(settings := s.settings[f := v.value]) else s
    case Nothing => s
  }

  /** What sending `cmd arg` over the socket does: the line is trimmed and cut at spaces. */
  function Send(parse: Parser, s: Server, cmd: string, arg: string): Server {
    var words := Split(Trim(cmd + [' '] + arg), ' ');
    if |words| == 1 then s else Execute(parse, s, ActionOf(words[0]), words[1])
  }

  datatype Command = Command(target: string, cmd: string, option: string)

  // ---------------------------------------------------------------- the store

  predicate HasSuffix(s: string, suffix: string) { |suffix| <= |s| && s[|s| - |suffix|..] == suffix }

  function TrimSuffix(s: string, suffix: string): string { if HasSuffix(s, suffix) then s[..|s| - |suffix|] else s }

  /** The rows that a delete by condition leaves, in id order. */
  function Keep(rows: seq<Command>, gone: Command -> bool): seq<Command> {
    if rows == [] then []
    else
      var init, r := Keep(rows[..|rows| - 1], gone), rows[|rows| - 1];
      if gone(r) then init else init + [r]
  }

  function SameRow(c: Command): Command -> bool { (r: Command) => r == c }
  function SameName(target: string, cmd: string): Command -> bool { (r: Command) => r.target == target && r.cmd == cmd }

  /** PersistCmd on rows in id order; a created row gets the highest id. */
  function Persist(rows: seq<Command>, c: Command): seq<Command> {
    if c.cmd == "" || c.option == "" then rows
    else if HasSuffix(c.cmd, REMOVE) then Keep(rows, SameRow(c.(cmd := TrimSuffix(c.cmd, REMOVE) + ADD)))
    else if HasSuffix(c.cmd, ADD) then if c in rows then rows else rows + [c]
    else Keep(rows, SameName(c.target, c.cmd)) + [c]
  }

  function Stored(history: seq<Command>): seq<Command> {
    if history == [] then [] else Persist(Stored(history[..|history| - 1]), history[|history| - 1])
  }

  /** One command at the server that listens on `target`. */
  function At(parse: Parser, target: string, s: Server, c: Command): Server {
    if c.target == target then Send(parse, s, c.cmd, c.option) else s
  }

  /** Sending commands in order to a fresh server. */
  function SendAll(parse: Parser, target: string, cs: seq<Command>): Server {
    if cs == [] then FRESH else At(parse, target, SendAll(parse, target, cs[..|cs| - 1]), cs[|cs| - 1])
  }

  /** The service's table of stored commands. */
  class CommandStore {
    var rows: seq<Command>

    constructor ()
      ensures rows == Stored([])
    {
      rows := [];
    }

    method PersistCmd(target: string, cmd: string, option: string)
      modifies this
      ensures rows == Persist(old(rows), Command(target, cmd, option))
    {
      if cmd == "" || option == "" { return; }
      if HasSuffix(cmd, REMOVE) {
        DeleteWhere(SameRow(Command(target, TrimSuffix(cmd, REMOVE) + ADD, option)));
      } else if HasSuffix(cmd, ADD) {
        var i := 0;
        while i < |rows|
          invariant 0 <= i <= |rows| && rows == old(rows) && Command(target, cmd, option) !in rows[..i]
        {
          if rows[i] == Command(target, cmd, option) { return; }
          i := i + 1;
        }
        rows := rows + [Command(target, cmd, option)];
      } else {
        DeleteWhere(SameName(target, cmd));
        rows := rows + [Command(target, cmd, option)];
      }
    }

    method DeleteWhere(gone: Command -> bool)
      modifies this
      ensures rows == Keep(old(rows), gone)
    {
      var kept, i := [], 0;
      while i < |rows|
        invariant 0 <= i <= |rows| && rows == old(rows) && kept == Keep(rows[..i], gone)
      {
        assert rows[..i + 1][..i] == rows[..i];
        if !gone(rows[i]) { kept := kept + [rows[i]]; }
        i := i + 1;
      }
      assert rows[..i] == rows;
      rows := kept;
    }
  }

  // ---------------------------------------------------------------- names

  predicate IsShort(name: string) { name in {"ba", "br", "Ba", "Br"} }

  lemma SuffixOf(base: string, suffix: string)
    ensures HasSuffix(base + suffix, suffix) && TrimSuffix(base + suffix, suffix) == base
  {}

  lemma LastRunes(name: string)
    ensures HasSuffix(name, ADD) ==> |name| >= 4 && name[|name| - 1] == 'd' && name[|name| - 2] == 'd'
    ensures HasSuffix(name, REMOVE) ==> |name| >= 7 && name[|name| - 1] == 'e'
  {
    if HasSuffix(name, ADD) {
      assert name[|name| - 1] == name[|name| - 4..][3] && name[|name| - 2] == name[|name| - 4..][2];
    }
    if HasSuffix(name, REMOVE) {
      assert name[|name| - 1] == name[|name| - 7..][6];
    }
  }

  lemma AddOrRemove(name: string)
    ensures !(HasSuffix(name, ADD) && HasSuffix(name, REMOVE))
  {
    LastRunes(name);
  }

  /** A field's name ends in neither list suffix. */
  lemma FieldNames(name: string)
    requires ActionOf(name).Set?
    ensures !HasSuffix(name, ADD) && !HasSuffix(name, REMOVE)
  {
    LastRunes(name);
    hide HasSuffix;
  }

  lemma BaseNames(l: List, m: List)
    ensures Base(l) + ADD != Base(m) + REMOVE
    ensures Base(l) + ADD == Base(m) + ADD || Base(l) + REMOVE == Base(m) + REMOVE ==> l == m
  {
    SuffixOf(Base(l), ADD); SuffixOf(Base(m), ADD); SuffixOf(Base(l), REMOVE); SuffixOf(Base(m), REMOVE);
    AddOrRemove(Base(l) + ADD);
    assert Base(Black)[2] != Base(Block)[2];
    hide HasSuffix, TrimSuffix, Base;
  }

  /** The suffixes by which rows are stored agree with what the server does, for long names. */
  lemma LongNames(name: string)
    requires !IsShort(name)
    ensures forall l: List :: ActionOf(name) == Add(l) <==> name == Base(l) + ADD
    ensures forall l: List :: ActionOf(name) == Remove(l) <==> name == Base(l) + REMOVE
  {
    BaseNames(Black, Block); BaseNames(Block, Black); BaseNames(Black, Black); BaseNames(Block, Block);
    hide Base;
    forall l: List
      ensures ActionOf(name) == Add(l) <==> name == Base(l) + ADD
      ensures ActionOf(name) == Remove(l) <==> name == Base(l) + REMOVE
    {
      assert l == Black || l == Block;
    }
  }

  /** Removing from a list deletes exactly the rows that added to it. */
  lemma RemovePairsAdd(name: string, l: List)
    requires HasSuffix(name, REMOVE)
    ensures TrimSuffix(name, REMOVE) + ADD == Base(l) + ADD <==> name == Base(l) + REMOVE
  {
    var base := TrimSuffix(name, REMOVE);
    assert name == base + REMOVE;
    SuffixOf(base, ADD);
    SuffixOf(Base(l), ADD);
    SuffixOf(Base(l), REMOVE);
  }

  /** What each name makes the server do with a one-word argument. */
  lemma WhatIsSent(parse: Parser, s: Server, name: string, arg: string)
    requires Solid(name) && Solid(arg)
    ensures
      var s', ips := Send(parse, s, name, arg), (set ip | ip in Split(arg, '|'));
      && (name == "blacklist-add" || name == "ba" ==> s' == s.(black := s.black + ips))
      && (name == "blacklist-remove" || name == "br" ==> s' == s.(black := if arg == "all" then {} else s.black - ips))
      && (name == "blocklist-add" || name == "Ba" ==> s' == s.(blocked := s.blocked + ips))
      && (name == "blocklist-remove" || name == "Br" ==> s' == s.(blocked := if arg == "all" then {} else s.blocked - ips))
      && (name == "downgrade-threshold" || name == "dt" ==> SetsOnly(s, s', Threshold, parse(Threshold, arg)))
      && (name == "downgrade-start-check" || name == "t" ==> SetsOnly(s, s', StartCheck, parse(StartCheck, arg)))
      && (name == "limit-speed" || name == "ls" ==> SetsOnly(s, s', LimitSpeed, parse(LimitSpeed, arg)))
      && (name == "total-bandwidth" || name == "tb" ==> SetsOnly(s, s', TotalBandwidth, parse(TotalBandwidth, arg)))
      && (name == "single-bandwidth" || name == "sb" ==> SetsOnly(s, s', SingleBandwidth, parse(SingleBandwidth, arg)))
  {
    SendSolid(parse, s, name, arg);
    hide Send, ActionOf, Split;
    LongActions(name);
    ShortActions(name);
    SettingActions(name);
  }

  lemma SendSolid(parse: Parser, s: Server, name: string, arg: string)
    requires Solid(name) && Solid(arg)
    ensures Send(parse, s, name, arg) == Execute(parse, s, ActionOf(name), arg)
  {
    hide ActionOf, Execute;
    TwoSolidWords(name, arg);
  }

  lemma LongActions(name: string)
    ensures name == "blacklist-add" ==> ActionOf(name) == Add(Black)
    ensures name == "blacklist-remove" ==> ActionOf(name) == Remove(Black)
    ensures name == "blocklist-add" ==> ActionOf(name) == Add(Block)
    ensures name == "blocklist-remove" ==> ActionOf(name) == Remove(Block)
  {
    BaseNames(Black, Black); BaseNames(Black, Block); BaseNames(Block, Black); BaseNames(Block, Block);
    LongListNames();
    hide Base;
  }

  lemma LongListNames()
    ensures Base(Black) + ADD == "blacklist-add" && Base(Black) + REMOVE == "blacklist-remove"
    ensures Base(Block) + ADD == "blocklist-add" && Base(Block) + REMOVE == "blocklist-remove"
  {}

  lemma ShortActions(name: string)
    ensures name == "ba" ==> ActionOf(name) == Add(Black)
    ensures name == "br" ==> ActionOf(name) == Remove(Black)
    ensures name == "Ba" ==> ActionOf(name) == Add(Block)
    ensures name == "Br" ==> ActionOf(name) == Remove(Block)
  {
    LongListNames();
    hide Base;
  }

  lemma SettingActions(name: string)
    ensures name == "downgrade-threshold" || name == "dt" ==> ActionOf(name) == Set(Threshold)
    ensures name == "downgrade-start-check" || name == "t" ==> ActionOf(name) == Set(StartCheck)
    ensures name == "limit-speed" || name == "ls" ==> ActionOf(name) == Set(LimitSpeed)
    ensures name == "total-bandwidth" || name == "tb" ==> ActionOf(name) == Set(TotalBandwidth)
    ensures name == "single-bandwidth" || name == "sb" ==> ActionOf(name) == Set(SingleBandwidth)
  {
    LongListNames();
    hide Base;
  }

  /** An accepted value goes to the one field; a rejected one goes nowhere. */
  ghost predicate SetsOnly(s: Server, s': Server, f: Field, v: Option<int>) {
    && s'.black == s.black
    && s'.blocked == s.blocked
    && s'.Setting(f) == (if v.Some? then v else s.Setting(f))
    && forall g :: g != f ==> s'.Setting(g) == s.Setting(g)
  }

  // ---------------------------------------------------------------- commands that store what they do

  /** One solid word as name and one as option; list commands by their long name, one address at a time. */
  predicate Plain(c: Command) {
    && Solid(c.cmd) && Solid(c.option) && !IsShort(c.cmd)
    && (ActionOf(c.cmd).Add? || ActionOf(c.cmd).Remove? ==> '|' !in c.option)
    && (ActionOf(c.cmd).Remove? ==> c.option != "all")
  }

  ghost predicate PlainRows(rows: seq<Command>) {
    forall r :: r in rows ==> Plain(r) && !HasSuffix(r.cmd, REMOVE)
  }

  function Options(rows: seq<Command>, target: string, name: string): set<string> {
    set r | r in rows && r.target == target && r.cmd == name :: r.option
  }

  predicate Sets(parse: Parser, r: Command, target: string, f: Field) {
    r.target == target && ActionOf(r.cmd) == Set(f) && parse(f, r.option).Some?
  }

  /** The last accepted value stored for a field. */
  function LastValue(parse: Parser, rows: seq<Command>, target: string, f: Field): Option<int> {
    if rows == [] then None
    else
      var r := rows[|rows| - 1];
      if Sets(parse, r, target, f) then parse(f, r.option) else LastValue(parse, rows[..|rows| - 1], target, f)
  }

  /** The server state that the rows describe. */
  ghost predicate Describes(parse: Parser, rows: seq<Command>, target: string, s: Server) {
    && (forall l: List :: s.Get(l) == Options(rows, target, Base(l) + ADD))
    && forall f :: s.Setting(f) == LastValue(parse, rows, target, f)
  }

  lemma DescribesOne(parse: Parser, rows: seq<Command>, target: string, s: Server, s': Server)
    requires Describes(parse, rows, target, s) && Describes(parse, rows, target, s')
    ensures s == s'
  {
    hide LastValue, Options;
    assert s.Get(Black) == s'.Get(Black) && s.Get(Block) == s'.Get(Block);
    forall f ensures f in s.settings <==> f in s'.settings
      ensures f in s.settings ==> s.settings[f] == s'.settings[f]
    {
      assert s.Setting(f) == s'.Setting(f);
    }
    assert s.settings == s'.settings;
  }

  lemma SendPlain(parse: Parser, s: Server, c: Command)
    requires Plain(c)
    ensures Send(parse, s, c.cmd, c.option) == Execute(parse, s, ActionOf(c.cmd), c.option)
    ensures ActionOf(c.cmd).Add? || ActionOf(c.cmd).Remove? ==> Fields(c.option) == {c.option}
  {
    SendSolid(parse, s, c.cmd, c.option);
    hide ActionOf, Execute, Send;
    if '|' !in c.option { SplitNone(c.option, '|'); }
  }

  lemma OptionsSnoc(rows: seq<Command>, c: Command, target: string, name: string)
    ensures Options(rows + [c], target, name) == Options(rows, target, name) + if c.target == target && c.cmd == name then {c.option} else {}
  {
    var rhs := Options(rows, target, name) + if c.target == target && c.cmd == name then {c.option} else {};
    forall o | o in rhs ensures o in Options(rows + [c], target, name) {
      if o in Options(rows, target, name) {
        var r :| r in rows && r.target == target && r.cmd == name && r.option == o;
        assert r in rows + [c];
      } else {
        assert c in rows + [c];
      }
    }
  }

  lemma LastValueSnoc(parse: Parser, rows: seq<Command>, c: Command, target: string, f: Field)
    ensures LastValue(parse, rows + [c], target, f) ==
      if Sets(parse, c, target, f) then parse(f, c.option) else LastValue(parse, rows, target, f)
  {
    assert (rows + [c])[..|rows|] == rows;
  }

  /** Appending a row that is not a removal adds its own effect. */
  lemma AppendDescribes(parse: Parser, rows: seq<Command>, c: Command, target: string, s: Server)
    requires Describes(parse, rows, target, s) && Plain(c) && !HasSuffix(c.cmd, REMOVE)
    ensures Describes(parse, rows + [c], target, At(parse, target, s, c))
  {
    hide ActionOf, LastValue, Options, Send, Base, HasSuffix;
    SendPlain(parse, s, c);
    LongNames(c.cmd);
    var s' := At(parse, target, s, c);
    forall l: List ensures s'.Get(l) == Options(rows + [c], target, Base(l) + ADD) {
      OptionsSnoc(rows, c, target, Base(l) + ADD);
      SuffixOf(Base(l), REMOVE);
    }
    forall f ensures s'.Setting(f) == LastValue(parse, rows + [c], target, f) {
      LastValueSnoc(parse, rows, c, target, f);
    }
  }

  /** Replaying stored rows gives what they describe. */
  lemma {:induction false} ReplayDescribes(parse: Parser, rows: seq<Command>, target: string)
    requires PlainRows(rows)
    ensures Describes(parse, rows, target, SendAll(parse, target, rows))
    decreases |rows|
  {
    if rows != [] {
      hide Describes, Plain, HasSuffix, At;
      var init, c := rows[..|rows| - 1], rows[|rows| - 1];
      assert rows == init + [c] && c in rows;
      ReplayDescribes(parse, init, target);
      AppendDescribes(parse, init, c, target, SendAll(parse, target, init));
    }
  }

  // ---------------------------------------------------------------- deletions

  lemma {:induction false} KeepMember(rows: seq<Command>, gone: Command -> bool, r: Command)
    ensures r in Keep(rows, gone) <==> r in rows && !gone(r)
    decreases |rows|
  {
    if rows != [] {
      KeepMember(rows[..|rows| - 1], gone, r);
      assert rows == rows[..|rows| - 1] + [rows[|rows| - 1]];
    }
  }

  /** Deleting rows that do not set a field does not change its last value. */
  lemma {:induction false} LastValueKept(parse: Parser, rows: seq<Command>, gone: Command -> bool, target: string, f: Field)
    requires forall r :: r in rows && gone(r) ==> !Sets(parse, r, target, f)
    ensures LastValue(parse, Keep(rows, gone), target, f) == LastValue(parse, rows, target, f)
    decreases |rows|
  {
    if rows != [] {
      hide Sets;
      var init, r := rows[..|rows| - 1], rows[|rows| - 1];
      assert r in rows;
      LastValueKept(parse, init, gone, target, f);
      if !gone(r) { LastValueSnoc(parse, Keep(init, gone), r, target, f); }
    }
  }

  lemma OptionsKept(rows: seq<Command>, gone: Command -> bool, target: string, name: string)
    ensures Options(Keep(rows, gone), target, name) == set r | r in rows && !gone(r) && r.target == target && r.cmd == name :: r.option
  {
    forall r ensures r in Keep(rows, gone) <==> r in rows && !gone(r) { KeepMember(rows, gone, r); }
  }

  /** Which rows storing a command leaves. */
  lemma PersistMembers(rows: seq<Command>, c: Command, r: Command)
    ensures r in Persist(rows, c) <==>
      if c.cmd == "" || c.option == "" then r in rows
      else if exists base :: c.cmd == base + "-remove" then
        r in rows && !(exists base :: c.cmd == base + "-remove" && r == c.(cmd := base + "-add"))
      else if exists base :: c.cmd == base + "-add" then r in rows || r == c
      else (r in rows && !(r.target == c.target && r.cmd == c.cmd)) || r == c
  {
    hide Keep;
    KeepMember(rows, SameRow(c.(cmd := TrimSuffix(c.cmd, REMOVE) + ADD)), r);
    KeepMember(rows, SameName(c.target, c.cmd), r);
    SuffixExactly(c.cmd, "-remove");
    SuffixExactly(c.cmd, "-add");
    hide HasSuffix, TrimSuffix;
  }

  lemma SuffixExactly(s: string, suffix: string)
    ensures HasSuffix(s, suffix) <==> exists base :: s == base + suffix
    ensures forall base :: s == base + suffix ==> TrimSuffix(s, suffix) == base
  {
    if HasSuffix(s, suffix) { assert s == TrimSuffix(s, suffix) + suffix; }
    forall base | s == base + suffix
      ensures HasSuffix(s, suffix) && TrimSuffix(s, suffix) == base
    {
      SuffixOf(base, suffix);
    }
  }

  /** The stored rows: no removal, nothing empty, no row twice, and one row for a target and a name that does not add. */
  ghost predicate Lean(rows: seq<Command>) {
    && (forall r :: r in rows ==> r.cmd != "" && r.option != "" && !HasSuffix(r.cmd, "-remove"))
    && (forall i, j :: 0 <= i < j < |rows| ==>
          && rows[i] != rows[j]
          && (rows[i].target == rows[j].target && rows[i].cmd == rows[j].cmd ==> HasSuffix(rows[i].cmd, "-add")))
  }

  lemma {:induction false} KeepLean(rows: seq<Command>, gone: Command -> bool)
    requires Lean(rows)
    ensures Lean(Keep(rows, gone))
    decreases |rows|
  {
    if rows != [] {
      hide HasSuffix;
      var init, r := rows[..|rows| - 1], rows[|rows| - 1];
      KeepLean(init, gone);
      forall q | q in Keep(init, gone)
        ensures q != r && (q.target == r.target && q.cmd == r.cmd ==> HasSuffix(q.cmd, "-add"))
      {
        KeepMember(init, gone, q);
        var i :| 0 <= i < |init| && init[i] == q;
        assert rows[i] == q;
      }
    }
  }

  lemma AppendLean(rows: seq<Command>, c: Command)
    requires Lean(rows) && c.cmd != "" && c.option != "" && !HasSuffix(c.cmd, "-remove")
    requires forall r :: r in rows ==> r != c && (r.target == c.target && r.cmd == c.cmd ==> HasSuffix(r.cmd, "-add"))
    ensures Lean(rows + [c])
  {
    hide HasSuffix;
  }

  lemma PersistLean(rows: seq<Command>, c: Command)
    requires Lean(rows)
    ensures Lean(Persist(rows, c))
  {
    hide HasSuffix, TrimSuffix, Keep, Lean;
    KeepLean(rows, SameRow(c.(cmd := TrimSuffix(c.cmd, REMOVE) + ADD)));
    var kept := Keep(rows, SameName(c.target, c.cmd));
    KeepLean(rows, SameName(c.target, c.cmd));
    forall r | r in kept ensures !(r.target == c.target && r.cmd == c.cmd) {
      KeepMember(rows, SameName(c.target, c.cmd), r);
    }
    if c.cmd != "" && c.option != "" && !HasSuffix(c.cmd, "-remove") {
      AppendLean(kept, c);
      if c !in rows && HasSuffix(c.cmd, "-add") { AppendLean(rows, c); }
    }
  }

  /** After any history, whatever the commands. */
  lemma {:induction false} StoredIsLean(history: seq<Command>)
    ensures Lean(Stored(history))
    ensures forall r :: r in Stored(history) ==> r in history
    decreases |history|
  {
    if history != [] {
      hide Persist, Lean;
      var rows, c := Stored(history[..|history| - 1]), history[|history| - 1];
      StoredIsLean(history[..|history| - 1]);
      PersistLean(rows, c);
      forall r | r in Persist(rows, c) ensures r in history {
        PersistMembers(rows, c, r);
      }
    } else {
      assert Lean([]);
    }
  }

  lemma PersistPlain(rows: seq<Command>, c: Command)
    requires PlainRows(rows) && Plain(c)
    ensures PlainRows(Persist(rows, c))
  {
    hide Plain, HasSuffix, Keep;
    forall r, gone: Command -> bool { KeepMember(rows, gone, r); }
  }

  /** A plain removal takes the one address from its list. */
  lemma RemoveAt(parse: Parser, s: Server, c: Command, target: string)
    requires Plain(c) && HasSuffix(c.cmd, REMOVE)
    ensures forall l: List :: At(parse, target, s, c).Get(l) == s.Get(l) - if c.target == target && c.cmd == Base(l) + REMOVE then {c.option} else {}
    ensures At(parse, target, s, c).settings == s.settings
  {
    SendPlain(parse, s, c);
    NotASetting(c.cmd);
    LongNames(c.cmd);
    AddOrRemove(c.cmd);
    SuffixOf(Base(Black), ADD); SuffixOf(Base(Block), ADD);
    hide ActionOf, Send, Base, HasSuffix;
  }

  /** A removal: the deleted row is the one that added the address. */
  lemma RemoveDescribes(parse: Parser, rows: seq<Command>, c: Command, target: string, s: Server)
    requires Describes(parse, rows, target, s) && Plain(c) && HasSuffix(c.cmd, REMOVE)
    ensures Describes(parse, Persist(rows, c), target, At(parse, target, s, c))
  {
    assert c.cmd != "" && c.option != "";
    hide ActionOf, LastValue, Keep, Send, Base, HasSuffix, TrimSuffix, At, Options, Plain;
    var add := c.(cmd := TrimSuffix(c.cmd, REMOVE) + ADD);
    var s' := At(parse, target, s, c);
    RemoveAt(parse, s, c, target);
    SuffixOf(TrimSuffix(c.cmd, REMOVE), ADD);
    forall l: List ensures s'.Get(l) == Options(Persist(rows, c), target, Base(l) + ADD) {
      OptionsKept(rows, SameRow(add), target, Base(l) + ADD);
      RemovePairsAdd(c.cmd, l);
      RemovedOption(rows, c, target, Base(l) + ADD);
    }
    forall f ensures s'.Setting(f) == LastValue(parse, Persist(rows, c), target, f) {
      NotASetting(add.cmd);
      LastValueKept(parse, rows, SameRow(add), target, f);
    }
  }

  lemma NotASetting(name: string)
    ensures HasSuffix(name, ADD) || HasSuffix(name, REMOVE) ==> !ActionOf(name).Set?
  {
    if ActionOf(name).Set? { FieldNames(name); }
  }

  lemma RemovedOption(rows: seq<Command>, c: Command, target: string, name: string)
    ensures var add := c.(cmd := TrimSuffix(c.cmd, REMOVE) + ADD);
            (set r | r in rows && !SameRow(add)(r) && r.target == target && r.cmd == name :: r.option)
            == Options(rows, target, name) - if add.target == target && add.cmd == name then {c.option} else {}
  {
    hide TrimSuffix;
  }

  /** Replacing by name keeps the lists, and the other fields. */
  lemma ReplaceKeeps(parse: Parser, rows: seq<Command>, c: Command, target: string)
    requires !HasSuffix(c.cmd, ADD)
    ensures var kept := Keep(rows, SameName(c.target, c.cmd));
            && (forall l: List :: Options(kept, target, Base(l) + ADD) == Options(rows, target, Base(l) + ADD))
            && (forall f :: c.target != target || ActionOf(c.cmd) != Set(f) ==> LastValue(parse, kept, target, f) == LastValue(parse, rows, target, f))
  {
    hide ActionOf, LastValue, Keep, Base, HasSuffix;
    var gone := SameName(c.target, c.cmd);
    forall l: List ensures Options(Keep(rows, gone), target, Base(l) + ADD) == Options(rows, target, Base(l) + ADD) {
      SuffixOf(Base(l), ADD);
      OptionsKept(rows, gone, target, Base(l) + ADD);
    }
    forall f | c.target != target || ActionOf(c.cmd) != Set(f)
      ensures LastValue(parse, Keep(rows, gone), target, f) == LastValue(parse, rows, target, f)
    {
      LastValueKept(parse, rows, gone, target, f);
    }
  }

  // ---------------------------------------------------------------- replay

  /** The command stores what it does: it sets no field of this server, or the server accepts its value, or
      the value in force does not come from the rows it replaces. */
  predicate KeepsInForce(parse: Parser, rows: seq<Command>, c: Command, target: string) {
    c.target == target && ActionOf(c.cmd).Set? ==>
      var f := ActionOf(c.cmd).field;
      parse(f, c.option).Some? || LastValue(parse, Keep(rows, SameName(target, c.cmd)), target, f) == LastValue(parse, rows, target, f)
  }

  lemma ReplaceDescribes(parse: Parser, rows: seq<Command>, c: Command, target: string, s: Server)
    requires Describes(parse, rows, target, s) && Plain(c) && !HasSuffix(c.cmd, REMOVE) && !HasSuffix(c.cmd, ADD)
    ensures Describes(parse, Persist(rows, c), target, At(parse, target, s, c)) <==> KeepsInForce(parse, rows, c, target)
  {
    LongNames(c.cmd);
    SuffixOf(Base(Black), ADD); SuffixOf(Base(Block), ADD); SuffixOf(Base(Black), REMOVE); SuffixOf(Base(Block), REMOVE);
    hide ActionOf, LastValue, Options, Keep, Send, Base, HasSuffix;
    SendPlain(parse, s, c);
    ReplaceKeeps(parse, rows, c, target);
    var kept, s' := Keep(rows, SameName(c.target, c.cmd)), At(parse, target, s, c);
    forall l: List ensures s'.Get(l) == Options(kept + [c], target, Base(l) + ADD) {
      OptionsSnoc(kept, c, target, Base(l) + ADD);
    }
    forall f ensures LastValue(parse, kept + [c], target, f) ==
      if Sets(parse, c, target, f) then parse(f, c.option) else LastValue(parse, kept, target, f)
    {
      LastValueSnoc(parse, kept, c, target, f);
    }
  }

  lemma PersistDescribes(parse: Parser, rows: seq<Command>, c: Command, target: string, s: Server)
    requires Describes(parse, rows, target, s) && PlainRows(rows) && Plain(c)
    ensures Describes(parse, Persist(rows, c), target, At(parse, target, s, c)) <==> KeepsInForce(parse, rows, c, target)
  {
    hide Describes, At, LastValue, Keep, ActionOf, HasSuffix;
    if HasSuffix(c.cmd, REMOVE) {
      RemoveDescribes(parse, rows, c, target, s);
      NotASetting(c.cmd);
    } else if HasSuffix(c.cmd, ADD) {
      NotASetting(c.cmd);
      AppendDescribes(parse, rows, c, target, s);
      if c in rows { AddedAgain(parse, rows, c, target, At(parse, target, s, c)); }
    } else {
      ReplaceDescribes(parse, rows, c, target, s);
    }
  }

  lemma AddedAgain(parse: Parser, rows: seq<Command>, c: Command, target: string, s: Server)
    requires c in rows && HasSuffix(c.cmd, ADD) && Describes(parse, rows + [c], target, s)
    ensures Describes(parse, rows, target, s)
  {
    hide ActionOf, LastValue, Options, Base, HasSuffix;
    NotASetting(c.cmd);
    forall l: List ensures Options(rows + [c], target, Base(l) + ADD) == Options(rows, target, Base(l) + ADD) {
      OptionsSnoc(rows, c, target, Base(l) + ADD);
      if c.target == target && c.cmd == Base(l) + ADD { OptionIn(rows, c, target); }
    }
    forall f ensures LastValue(parse, rows + [c], target, f) == LastValue(parse, rows, target, f) {
      LastValueSnoc(parse, rows, c, target, f);
    }
  }

  lemma OptionIn(rows: seq<Command>, c: Command, target: string)
    requires c in rows && c.target == target
    ensures c.option in Options(rows, target, c.cmd)
  {}

  /** One more command: if replaying the rows gave the server's state before it, replaying them gives the
      state after it exactly when the command keeps the value in force. */
  lemma ReplayStaysExact(parse: Parser, rows: seq<Command>, c: Command, target: string, s: Server)
    requires PlainRows(rows) && Plain(c) && SendAll(parse, target, rows) == s
    ensures SendAll(parse, target, Persist(rows, c)) == At(parse, target, s, c) <==> KeepsInForce(parse, rows, c, target)
  {
    hide Describes, At, LastValue, Keep, ActionOf, HasSuffix, Persist, Plain, SendAll;
    ReplayDescribes(parse, rows, target);
    PersistDescribes(parse, rows, c, target, s);
    PersistPlain(rows, c);
    ReplayDescribes(parse, Persist(rows, c), target);
    if Describes(parse, Persist(rows, c), target, At(parse, target, s, c)) {
      DescribesOne(parse, Persist(rows, c), target, At(parse, target, s, c), SendAll(parse, target, Persist(rows, c)));
    }
  }

  /** The server accepts the values of all field commands. */
  ghost predicate Accepted(parse: Parser, c: Command) {
    ActionOf(c.cmd).Set? ==> parse(ActionOf(c.cmd).field, c.option).Some?
  }

  /** After any history of plain, accepted commands, replaying the stored rows rebuilds the server, also when
      different aliases set the same field. */
  lemma {:induction false} ReplayRebuilds(parse: Parser, history: seq<Command>, target: string)
    requires forall c :: c in history ==> Plain(c) && Accepted(parse, c)
    ensures PlainRows(Stored(history)) && SendAll(parse, target, Stored(history)) == SendAll(parse, target, history)
    decreases |history|
  {
    if history != [] {
      var init, c := history[..|history| - 1], history[|history| - 1];
      assert c in history;
      assert KeepsInForce(parse, Stored(init), c, target);
      hide ActionOf, HasSuffix, Persist, Plain, At, LastValue, KeepsInForce, Accepted;
      ReplayRebuilds(parse, init, target);
      PersistPlain(Stored(init), c);
      ReplayStaysExact(parse, Stored(init), c, target, SendAll(parse, target, init));
    }
  }

  /** A rejected value under a name already stored loses the value in force. */
  lemma RejectedValueForgets(parse: Parser, target: string, name: string, good: string, bad: string)
    requires ActionOf(name).Set? && Solid(name) && Solid(good) && Solid(bad)
    requires var f := ActionOf(name).field; parse(f, good).Some? && parse(f, bad).None?
    ensures var h := [Command(target, name, good), Command(target, name, bad)]; var f := ActionOf(name).field;
            && SendAll(parse, target, h).Setting(f) == parse(f, good)
            && SendAll(parse, target, Stored(h)).Setting(f) == None
  {
    FieldNames(name);
    hide ActionOf, HasSuffix, Send;
    var a, b := Command(target, name, good), Command(target, name, bad);
    SendPlain(parse, FRESH, a);
    SendPlain(parse, FRESH, b);
    SendPlain(parse, At(parse, target, FRESH, a), b);
    StoredTwo(a, b);
    SendTwo(parse, target, a, b);
  }

  lemma SendTwo(parse: Parser, target: string, a: Command, b: Command)
    ensures SendAll(parse, target, [a, b]) == At(parse, target, At(parse, target, FRESH, a), b)
    ensures SendAll(parse, target, [b]) == At(parse, target, FRESH, b)
  {
    hide At;
    assert [a, b][..1] == [a] && [a][..0] == [] && [b][..0] == [];
    assert SendAll(parse, target, [a]) == At(parse, target, FRESH, a);
  }

  lemma StoredTwo(a: Command, b: Command)
    requires a.target == b.target && a.cmd == b.cmd && a.cmd != "" && a.option != "" && b.option != ""
    requires !HasSuffix(a.cmd, ADD) && !HasSuffix(a.cmd, REMOVE)
    ensures Stored([a, b]) == [b]
  {
    hide HasSuffix;
    assert [a, b][..1] == [a] && [a][..0] == [];
    assert Stored([a]) == Persist([], a) == [a];
    assert Keep([a], SameName(b.target, b.cmd)) == [];
    assert Persist([a], b) == [b];
  }

  // ---------------------------------------------------------------- any command at all

  /** What sending a command does, with the argument that counts. */
  function Effect(c: Command): (Action, string) {
    var words := Split(Trim(c.cmd + [' '] + c.option), ' ');
    if |words| == 1 then (Nothing, "") else (ActionOf(words[0]), words[1])
  }

  predicate Adds(c: Command, target: string, l: List, ip: string) {
    c.target == target && Effect(c).0 == Add(l) && ip in Fields(Effect(c).1)
  }

  predicate Removes(c: Command, target: string, l: List, ip: string) {
    c.target == target && Effect(c).0 == Remove(l) && (Effect(c).1 == "all" || ip in Fields(Effect(c).1))
  }

  /** The value a command gives a field, if any. */
  function Gives(parse: Parser, c: Command, target: string, f: Field): Option<int> {
    if c.target == target && Effect(c).0 == Set(f) then parse(f, Effect(c).1) else None
  }

  /** The last row that concerns the address adds it. */
  predicate Listed(rows: seq<Command>, target: string, l: List, ip: string) {
    if rows == [] then false
    else
      var r := rows[|rows| - 1];
      if Adds(r, target, l, ip) then true
      else if Removes(r, target, l, ip) then false
      else Listed(rows[..|rows| - 1], target, l, ip)
  }

  /** The last value given to a field. */
  function LastGiven(parse: Parser, rows: seq<Command>, target: string, f: Field): Option<int> {
    if rows == [] then None
    else
      var r := rows[|rows| - 1];
      if Gives(parse, r, target, f).Some? then Gives(parse, r, target, f) else LastGiven(parse, rows[..|rows| - 1], target, f)
  }

  lemma EffectOfOne(parse: Parser, s: Server, c: Command, target: string, l: List, ip: string, f: Field)
    ensures
      var s' := At(parse, target, s, c);
      && (ip in s'.Get(l) <==> if Adds(c, target, l, ip) then true else if Removes(c, target, l, ip) then false else ip in s.Get(l))
      && s'.Setting(f) == if Gives(parse, c, target, f).Some? then Gives(parse, c, target, f) else s.Setting(f)
  {
    hide ActionOf, Split, Trim;
  }

  /** Replaying rows in order, for one address and one field. */
  lemma {:induction false} ReplayMeans(parse: Parser, rows: seq<Command>, target: string, l: List, ip: string, f: Field)
    ensures ip in SendAll(parse, target, rows).Get(l) <==> Listed(rows, target, l, ip)
    ensures SendAll(parse, target, rows).Setting(f) == LastGiven(parse, rows, target, f)
    decreases |rows|
  {
    if rows != [] {
      hide Adds, Removes, Gives, At;
      ReplayMeans(parse, rows[..|rows| - 1], target, l, ip, f);
      EffectOfOne(parse, SendAll(parse, target, rows[..|rows| - 1]), rows[|rows| - 1], target, l, ip, f);
    }
  }

  lemma SameServer(s: Server, s': Server)
    requires forall l: List, ip :: ip in s.Get(l) <==> ip in s'.Get(l)
    requires forall f :: s.Setting(f) == s'.Setting(f)
    ensures s == s'
  {
    assert forall ip :: ip in s.black <==> ip in s.Get(Black);
    assert forall ip :: ip in s.blocked <==> ip in s.Get(Block);
    assert forall ip :: ip in s'.black <==> ip in s'.Get(Black);
    assert forall ip :: ip in s'.blocked <==> ip in s'.Get(Block);
    forall f
      ensures f in s.settings <==> f in s'.settings
      ensures f in s.settings ==> s.settings[f] == s'.settings[f]
    {
      assert s.Setting(f) == s'.Setting(f);
    }
    assert s.settings == s'.settings;
  }

  /** The rows that storing a command leaves, and whether the command is put after them. */
  function Left(rows: seq<Command>, c: Command): seq<Command> {
    if c.cmd == "" || c.option == "" then rows
    else if HasSuffix(c.cmd, REMOVE) then Keep(rows, SameRow(c.(cmd := TrimSuffix(c.cmd, REMOVE) + ADD)))
    else if HasSuffix(c.cmd, ADD) then rows
    else Keep(rows, SameName(c.target, c.cmd))
  }

  predicate Appended(rows: seq<Command>, c: Command) {
    c.cmd != "" && c.option != "" && !HasSuffix(c.cmd, REMOVE) && (HasSuffix(c.cmd, ADD) ==> c !in rows)
  }

  /** The rows left say the same as before about everything the command does not concern. */
  ghost predicate NothingElseChanges(parse: Parser, rows: seq<Command>, c: Command, target: string) {
    && (forall l: List, ip :: !Adds(c, target, l, ip) && !Removes(c, target, l, ip) ==>
          (Listed(Left(rows, c), target, l, ip) <==> Listed(rows, target, l, ip)))
    && (forall f :: Gives(parse, c, target, f).None? ==> LastGiven(parse, Left(rows, c), target, f) == LastGiven(parse, rows, target, f))
  }

  /** The rows left say already what the command does. */
  ghost predicate SaidAlready(parse: Parser, rows: seq<Command>, c: Command, target: string) {
    && (forall l: List, ip :: Adds(c, target, l, ip) ==> Listed(Left(rows, c), target, l, ip))
    && (forall l: List, ip :: !Adds(c, target, l, ip) && Removes(c, target, l, ip) ==> !Listed(Left(rows, c), target, l, ip))
    && (forall f :: Gives(parse, c, target, f).Some? ==> LastGiven(parse, Left(rows, c), target, f) == Gives(parse, c, target, f))
  }

  lemma PersistIsLeft(rows: seq<Command>, c: Command)
    ensures Persist(rows, c) == if Appended(rows, c) then Left(rows, c) + [c] else Left(rows, c)
  {
    hide HasSuffix, TrimSuffix, Keep;
  }

  lemma AppendMeans(parse: Parser, rows: seq<Command>, c: Command, target: string, l: List, ip: string, f: Field)
    ensures Listed(rows + [c], target, l, ip) <==>
      if Adds(c, target, l, ip) then true else if Removes(c, target, l, ip) then false else Listed(rows, target, l, ip)
    ensures LastGiven(parse, rows + [c], target, f) ==
      if Gives(parse, c, target, f).Some? then Gives(parse, c, target, f) else LastGiven(parse, rows, target, f)
  {
    hide Adds, Removes, Gives;
    assert (rows + [c])[..|rows|] == rows;
  }

  /** Two tables say the same about every address and every field. */
  ghost predicate SayTheSame(parse: Parser, a: seq<Command>, b: seq<Command>, target: string) {
    && (forall l: List, ip :: Listed(a, target, l, ip) <==> Listed(b, target, l, ip))
    && (forall f :: LastGiven(parse, a, target, f) == LastGiven(parse, b, target, f))
  }

  lemma SameExactly(parse: Parser, rows: seq<Command>, c: Command, target: string)
    ensures SayTheSame(parse, Persist(rows, c), rows + [c], target) <==>
      NothingElseChanges(parse, rows, c, target) && (Appended(rows, c) || SaidAlready(parse, rows, c, target))
  {
    hide Adds, Removes, Gives, Persist, Left, Appended, Listed, LastGiven;
    PersistIsLeft(rows, c);
    Appending(parse, rows, c, target);
    Appending(parse, Left(rows, c), c, target);
  }

  lemma Appending(parse: Parser, rows: seq<Command>, c: Command, target: string)
    ensures
      forall l: List, ip ::
        (Listed(rows + [c], target, l, ip) <==>
         if Adds(c, target, l, ip) then true else if Removes(c, target, l, ip) then false else Listed(rows, target, l, ip))
    ensures
      forall f ::
        (LastGiven(parse, rows + [c], target, f) ==
         if Gives(parse, c, target, f).Some? then Gives(parse, c, target, f) else LastGiven(parse, rows, target, f))
  {
    hide Adds, Removes, Gives, Listed, LastGiven;
    forall l: List, ip
      ensures Listed(rows + [c], target, l, ip) <==>
        if Adds(c, target, l, ip) then true else if Removes(c, target, l, ip) then false else Listed(rows, target, l, ip)
    {
      AppendMeans(parse, rows, c, target, l, ip, Threshold);
    }
    forall f
      ensures LastGiven(parse, rows + [c], target, f) ==
        if Gives(parse, c, target, f).Some? then Gives(parse, c, target, f) else LastGiven(parse, rows, target, f)
    {
      AppendMeans(parse, rows, c, target, Black, "", f);
    }
  }

  lemma Replaying(parse: Parser, rows: seq<Command>, target: string)
    ensures forall l: List, ip :: ip in SendAll(parse, target, rows).Get(l) <==> Listed(rows, target, l, ip)
    ensures forall f :: SendAll(parse, target, rows).Setting(f) == LastGiven(parse, rows, target, f)
  {
    hide Listed, LastGiven, SendAll;
    forall l: List, ip
      ensures ip in SendAll(parse, target, rows).Get(l) <==> Listed(rows, target, l, ip)
    {
      ReplayMeans(parse, rows, target, l, ip, Threshold);
    }
    forall f
      ensures SendAll(parse, target, rows).Setting(f) == LastGiven(parse, rows, target, f)
    {
      ReplayMeans(parse, rows, target, Black, "", f);
    }
  }

  lemma SayingIsReplaying(parse: Parser, a: seq<Command>, b: seq<Command>, target: string)
    ensures SayTheSame(parse, a, b, target) <==> SendAll(parse, target, a) == SendAll(parse, target, b)
  {
    hide Listed, LastGiven, SendAll;
    Replaying(parse, a, target);
    Replaying(parse, b, target);
    if SendAll(parse, target, a) == SendAll(parse, target, b) {
      forall l: List, ip
        ensures Listed(a, target, l, ip) <==> Listed(b, target, l, ip)
      {
        assert ip in SendAll(parse, target, a).Get(l) <==> Listed(a, target, l, ip);
        assert ip in SendAll(parse, target, b).Get(l) <==> Listed(b, target, l, ip);
      }
    }
    if SayTheSame(parse, a, b, target) { SameServer(SendAll(parse, target, a), SendAll(parse, target, b)); }
  }

  /** One more command of any kind, short names, several addresses and `all` included: if replaying the rows gave the
      server's state, it still does if and only if the rows left say the same about everything else, and, unless the
      command is stored after them, say already what it does. */
  lemma AnyCommandStaysExact(parse: Parser, rows: seq<Command>, c: Command, target: string)
    ensures
      SendAll(parse, target, Persist(rows, c)) == At(parse, target, SendAll(parse, target, rows), c) <==>
      NothingElseChanges(parse, rows, c, target) && (Appended(rows, c) || SaidAlready(parse, rows, c, target))
  {
    hide Listed, LastGiven, Persist, At, NothingElseChanges, SaidAlready, Appended;
    SameExactly(parse, rows, c, target);
    SayingIsReplaying(parse, Persist(rows, c), rows + [c], target);
    SendOneMore(parse, rows, c, target);
  }

  lemma SendOneMore(parse: Parser, rows: seq<Command>, c: Command, target: string)
    ensures SendAll(parse, target, rows + [c]) == At(parse, target, SendAll(parse, target, rows), c)
  {
    hide At;
    assert (rows + [c])[..|rows|] == rows;
  }

  /** A short list name is replaced by name, so a second address forgets the first. */
  lemma ShortNameForgets(parse: Parser, target: string, a: string, b: string)
    requires Solid(a) && Solid(b) && a != b && '|' !in a && '|' !in b
    ensures
      var h := [Command(target, "ba", a), Command(target, "ba", b)];
      a in SendAll(parse, target, h).black && a !in SendAll(parse, target, Stored(h)).black
  {
    hide Trim, HasSuffix, At;
    ShortName();
    TwoSolidWords("ba", a);
    TwoSolidWords("ba", b);
    SplitNone(a, '|');
    SplitNone(b, '|');
    var x, y := Command(target, "ba", a), Command(target, "ba", b);
    StoredTwo(x, y);
    SendTwo(parse, target, x, y);
    EffectOfOne(parse, FRESH, x, target, Black, a, Threshold);
    EffectOfOne(parse, FRESH, y, target, Black, a, Threshold);
    EffectOfOne(parse, At(parse, target, FRESH, x), y, target, Black, a, Threshold);
  }

  lemma ShortName()
    ensures Solid("ba") && ActionOf("ba") == Add(Black) && !HasSuffix("ba", ADD) && !HasSuffix("ba", REMOVE)
  {
    LastRunes("ba");
    assert "ba"[0] == 'b' && "ba"[1] == 'a';
  }
}
