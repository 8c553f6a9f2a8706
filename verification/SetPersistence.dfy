/**
 The relay's blacklist and blocklist: concurrent updates of an in-memory set, each followed by
 writing the whole set to a file under one lock shared by both lists.
 */
module SetPersistence {
  import opened Text

  datatype List = Blacklist | Blocklist

  datatype Op = Insert(ips: string) | Remove(ips: string)

  function Apply(op: Op, s: set<string>): set<string> {
    match op
    case Insert(ips) => s + Fields(ips)
    case Remove(ips) => if ips == "all" then {} else s - Fields(ips)
  }

  // ---------------------------------------------------------------- all interleavings

  /** A call after its update: waiting for the disk lock, holding it, or writing its snapshot.
      `version` numbers the set value the snapshot was taken of. */
  datatype Call =
    | Waiting(list: List)
    | Holding(list: List)
    | Writing(list: List, lines: seq<string>, done: nat, version: nat)

  /** `values` are all values a set has had, the last one being the current; `shown` numbers the one in the file. */
  datatype State = State(values: map<List, seq<set<string>>>, shown: map<List, int>, files: map<List, seq<string>>,
                         temps: map<List, seq<string>>, calls: map<nat, Call>)

  datatype Event =
    | Update(call: nat, list: List, op: Op)
    | Lock(call: nat)
    | Snapshot(call: nat, lines: seq<string>)
    | WriteLine(call: nat)
    | Rename(call: nat)

  ghost predicate Enumerates(lines: seq<string>, s: set<string>) {
    (forall ip :: ip in lines <==> ip in s) && forall i, j :: 0 <= i < j < |lines| ==> lines[i] != lines[j]
  }

  ghost predicate Total(s: State) {
    forall l: List :: l in s.values && l in s.shown && l in s.files && l in s.temps && s.values[l] != []
  }

  function Last<T>(xs: seq<T>): T
    requires xs != []
  {
    xs[|xs| - 1]
  }

  ghost predicate Free(s: State) {
    forall c :: c in s.calls ==> s.calls[c].Waiting?
  }

  ghost function Step(s: State, e: Event): State
    requires Total(s)
  {
    var c := e.call;
    match e
    case Update(_, l, op) =>
      if c in s.calls then s
      else s.(values := s.values[l := s.values[l] + [Apply(op, Last(s.values[l]))]], calls := s.calls[c := Waiting(l)])
    case Lock(_) =>
      if c in s.calls && s.calls[c].Waiting? && Free(s) then s.(calls := s.calls[c := Holding(s.calls[c].list)]) else s
    case Snapshot(_, lines) =>
      if c in s.calls && s.calls[c].Holding? && Enumerates(lines, Last(s.values[s.calls[c].list])) then
        var l := s.calls[c].list;
        s.(temps := s.temps[l := []], calls := s.calls[c := Writing(l, lines, 0, |s.values[l]| - 1)])
      else s
    case WriteLine(_) =>
      if c in s.calls && s.calls[c].Writing? && s.calls[c].done < |s.calls[c].lines| then
        var w := s.calls[c];
        s.(temps := s.temps[w.list := s.temps[w.list] + [w.lines[w.done]]], calls := s.calls[c := w.(done := w.done + 1)])
      else s
    case Rename(_) =>
      if c in s.calls && s.calls[c].Writing? && s.calls[c].done == |s.calls[c].lines| then
        var w := s.calls[c];
        s.(files := s.files[w.list := s.temps[w.list]], shown := s.shown[w.list := w.version], calls := s.calls - {c})
      else s
  }

  ghost predicate GoodWriter(s: State, w: Call)
    requires Total(s) && w.Writing?
  {
    && w.done <= |w.lines| && s.temps[w.list] == w.lines[..w.done]
    && s.shown[w.list] <= w.version < |s.values[w.list]|
    && Enumerates(w.lines, s.values[w.list][w.version])
  }

  /** The call has yet to look at the list, or is writing its newest value. */
  ghost predicate Covers(s: State, c: nat, l: List)
    requires Total(s)
  {
    c in s.calls && s.calls[c].list == l && (s.calls[c].Writing? ==> s.calls[c].version == |s.values[l]| - 1)
  }

  /** After the first update, the file shows the newest value or some call still will. */
  ghost predicate Pending(s: State, l: List)
    requires Total(s)
  {
    |s.values[l]| == 1 || s.shown[l] == |s.values[l]| - 1 || exists c :: Covers(s, c, l)
  }

  ghost predicate Shown(s: State, l: List)
    requires Total(s)
  {
    -1 <= s.shown[l] < |s.values[l]| && (s.shown[l] >= 0 ==> Enumerates(s.files[l], s.values[l][s.shown[l]]))
  }

  ghost predicate OneHolder(s: State) {
    forall c, d :: c in s.calls && d in s.calls && !s.calls[c].Waiting? && !s.calls[d].Waiting? ==> c == d
  }

  ghost predicate Valid(s: State) {
    && Total(s) && OneHolder(s)
    && (forall c :: c in s.calls && s.calls[c].Writing? ==> GoodWriter(s, s.calls[c]))
    && (forall l: List :: Shown(s, l) && Pending(s, l))
  }

  /** The server has loaded both files and no call has run. */
  ghost predicate Init(s: State) {
    Total(s) && s.calls == map[] && forall l: List :: |s.values[l]| == 1 && s.shown[l] == -1
  }

  ghost predicate Later(s: State, s': State)
    requires Total(s) && Total(s')
  {
    forall l: List :: s.shown[l] <= s'.shown[l] && s.values[l] <= s'.values[l]
  }

  /** Transfers the per-list facts when a step keeps the file and some cover survives. */
  lemma StillPending(s: State, s': State, c: nat, l: List)
    requires Total(s) && Total(s') && Covers(s, c, l) && s'.values[l] == s.values[l]
    requires c in s'.calls && s'.calls[c].list == l && (s'.calls[c].Writing? ==> s'.calls[c].version == |s.values[l]| - 1)
    ensures Pending(s', l)
  {
    assert Covers(s', c, l);
  }

  lemma UpdateValid(s: State, e: Event)
    requires Valid(s) && e.Update?
    ensures Valid(Step(s, e)) && Later(s, Step(s, e))
  {
    hide Enumerates;
    var s' := Step(s, e);
    if e.call !in s.calls {
      forall c | c in s'.calls && s'.calls[c].Writing? ensures GoodWriter(s', s'.calls[c]) {
        assert GoodWriter(s, s.calls[c]);
      }
      forall l: List ensures Shown(s', l) && Pending(s', l) {
        assert Shown(s, l) && Pending(s, l);
        if l == e.list {
          assert Covers(s', e.call, l);
        } else if c :| Covers(s, c, l) {
          StillPending(s, s', c, l);
        }
      }
    }
  }

  lemma AdvanceValid(s: State, e: Event)
    requires Valid(s) && (e.Lock? || e.Snapshot? || e.WriteLine?)
    ensures Valid(Step(s, e)) && Later(s, Step(s, e))
  {
    hide Enumerates;
    var s' := Step(s, e);
    if s' != s {
      forall c | c in s'.calls && s'.calls[c].Writing? ensures GoodWriter(s', s'.calls[c]) {
        assert c == e.call;
        assert e.WriteLine? ==> GoodWriter(s, s.calls[c]);
        assert e.Snapshot? ==> Shown(s, s.calls[c].list);
      }
      forall l: List ensures Shown(s', l) && Pending(s', l) {
        assert Shown(s, l) && Pending(s, l);
        if c :| Covers(s, c, l) {
          StillPending(s, s', c, l);
        }
      }
    }
  }

  lemma RenameValid(s: State, e: Event)
    requires Valid(s) && e.Rename?
    ensures Valid(Step(s, e)) && Later(s, Step(s, e))
  {
    hide Enumerates;
    var s' := Step(s, e);
    if s' != s {
      var w := s.calls[e.call];
      assert GoodWriter(s, w) && w.lines[..w.done] == w.lines;
      assert forall c :: c in s'.calls ==> s'.calls[c].Waiting?;
      forall l: List ensures Shown(s', l) && Pending(s', l) {
        assert Shown(s, l) && Pending(s, l);
        if c :| Covers(s, c, l) {
          if c != e.call { StillPending(s, s', c, l); }
        }
      }
    }
  }

  ghost function Run(s: State, es: seq<Event>): State
    requires Valid(s)
    ensures Valid(Run(s, es))
    decreases |es|
  {
    if es == [] then s
    else
      StepValid(s, es[0]);
      Run(Step(s, es[0]), es[1..])
  }

  lemma StepValid(s: State, e: Event)
    requires Valid(s)
    ensures Valid(Step(s, e)) && Later(s, Step(s, e))
  {
    hide Valid, Step;
    match e
    case Update(_, _, _) => UpdateValid(s, e);
    case Rename(_) => RenameValid(s, e);
    case Lock(_) => AdvanceValid(s, e);
    case Snapshot(_, _) => AdvanceValid(s, e);
    case WriteLine(_) => AdvanceValid(s, e);
  }

  /** The file never goes back to an older value. */
  lemma {:induction false} NeverOlder(s: State, es: seq<Event>)
    requires Valid(s)
    ensures Later(s, Run(s, es))
    decreases |es|
  {
    if es != [] {
      hide Valid, Step;
      StepValid(s, es[0]);
      NeverOlder(Step(s, es[0]), es[1..]);
    }
  }

  /** With any number of concurrent calls: once written, the file is one whole value the set really had;
      and after at least one update, whenever no call on the list is in progress, it is the current one. */
  lemma FileIsAWholeValue(s0: State, es: seq<Event>, l: List)
    requires Init(s0)
    ensures var s := Run(s0, es);
            && (s.shown[l] >= 0 ==> s.shown[l] < |s.values[l]| && Enumerates(s.files[l], s.values[l][s.shown[l]]))
            && (|s.values[l]| > 1 && (forall c :: c in s.calls ==> s.calls[c].list != l) ==>
                  Enumerates(s.files[l], Last(s.values[l])))
  {
    var s := Run(s0, es);
    assert Shown(s, l) && Pending(s, l);
  }

  /** What an update makes of the list's newest value, and that it waits to be written. */
  lemma UpdateExactly(s: State, e: Event)
    requires Total(s) && e.Update? && e.call !in s.calls
    ensures
      var s' := Step(s, e);
      && Total(s') && s'.calls == s.calls[e.call := Waiting(e.list)] && s'.files == s.files
      && (forall l: List :: l != e.list ==> s'.values[l] == s.values[l])
      && s'.values[e.list][..|s'.values[e.list]| - 1] == s.values[e.list]
      && forall ip ::
           ip in Last(s'.values[e.list]) <==>
             if e.op.Insert? then ip in Last(s.values[e.list]) || ip in Split(e.op.ips, '|')
             else e.op.ips != "all" && ip in Last(s.values[e.list]) && ip !in Split(e.op.ips, '|')
  {}

  /** The lines of a set, each once. */
  lemma {:induction false} SomeListing(s: set<string>) returns (lines: seq<string>)
    ensures Enumerates(lines, s)
    decreases |s|
  {
    if s == {} {
      lines := [];
    } else {
      var x :| x in s;
      lines := SomeListing(s - {x});
      lines := lines + [x];
    }
  }

  /** While a call is in progress, some call can go on. */
  lemma NeverStuck(s: State) returns (e: Event)
    requires Valid(s) && s.calls != map[]
    ensures !e.Update? && Step(s, e) != s
  {
    hide Enumerates;
    if c :| c in s.calls && !s.calls[c].Waiting? {
      match s.calls[c]
      case Holding(l) =>
        var lines := SomeListing(Last(s.values[l]));
        e := Snapshot(c, lines);
        assert Step(s, e).calls[c].Writing?;
      case Writing(l, lines, done, _) =>
        if done < |lines| {
          e := WriteLine(c);
          assert Step(s, e).calls[c].done == done + 1;
        } else {
          assert GoodWriter(s, s.calls[c]);
          e := Rename(c);
          assert c !in Step(s, e).calls;
        }
    } else {
      var c :| c in s.calls;
      e := Lock(c);
      assert Step(s, e).calls[c].Holding?;
    }
  }

  // ---------------------------------------------------------------- the file's text

  /** One line per entry, each ended by a newline. */
  function FileText(lines: seq<string>): string {
    if lines == [] then "" else lines[0] + ['\n'] + FileText(lines[1..])
  }

  /** What startup reads from one line: the first word of the trimmed line. */
  function FirstWord(line: string): string { Split(Trim(line), ' ')[0] }

  function Load(text: string): set<string> { set line | line in Split(text, '\n') :: FirstWord(line) }

  /** One line that startup reads unchanged; every solid word and the empty string are clean. */
  predicate Clean(ip: string) { '\n' !in ip && FirstWord(ip) == ip }

  lemma SolidIsClean(ip: string)
    requires Solid(ip) || ip == ""
    ensures Clean(ip)
  {
    SolidTrims(ip);
    SplitNone(ip, ' ');
  }

  lemma {:induction false} SplitFileText(lines: seq<string>)
    requires forall ip :: ip in lines ==> '\n' !in ip
    ensures Split(FileText(lines), '\n') == lines + [""]
    decreases |lines|
  {
    if lines != [] {
      assert lines[0] in lines;
      SplitField(lines[0], FileText(lines[1..]), '\n');
      SplitFileText(lines[1..]);
    }
  }

  /** Reloading a written file gives back the set, plus the empty string that the final newline leaves. */
  lemma ReloadAddsTheEmptyString(lines: seq<string>, s: set<string>)
    requires Enumerates(lines, s) && forall ip :: ip in s ==> Clean(ip)
    ensures Load(FileText(lines)) == s + {""}
    ensures Load(FileText(lines)) == s <==> "" in s
  {
    SplitFileText(lines);
    SolidIsClean("");
    var all := lines + [""];
    forall ip | ip in all ensures FirstWord(ip) == ip { }
    forall ip | ip in s + {""} ensures ip in Load(FileText(lines)) {
      assert ip in all && FirstWord(ip) == ip;
    }
  }

  // ---------------------------------------------------------------- when a reload changes nothing

  lemma {:induction false} TrimRightPrefix(s: string, space: char -> bool)
    ensures TrimRight(s, space) <= s
    decreases |s|
  {
    if s != "" && space(s[|s| - 1]) { TrimRightPrefix(s[..|s| - 1], space); }
  }

  lemma {:induction false} TrimLeftSuffix(s: string, space: char -> bool)
    ensures |TrimLeft(s, space)| <= |s| && TrimLeft(s, space) == s[|s| - |TrimLeft(s, space)|..]
    decreases |s|
  {
    if s != "" && space(s[0]) { TrimLeftSuffix(s[1..], space); }
  }

  lemma {:induction false} FirstField(s: string, c: char)
    ensures Split(s, c)[0] <= s
    decreases |s|
  {
    if s != "" && s[0] != c { FirstField(s[1..], c); }
  }

  /** The first word is part of the line, so it is no longer than it, and equally long only if it is all of it. */
  lemma FirstWordShorter(line: string)
    ensures |FirstWord(line)| < |line| || FirstWord(line) == line
    ensures '\n' !in line ==> '\n' !in FirstWord(line)
  {
    var left := TrimLeft(line, IsSpace);
    TrimLeftSuffix(line, IsSpace);
    TrimRightPrefix(left, IsSpace);
    FirstField(Trim(line), ' ');
    assert FirstWord(line) <= left;
  }

  lemma {:induction false} LongestBound(s: set<string>) returns (n: nat)
    ensures forall x :: x in s ==> |x| <= n
    decreases |s|
  {
    if s == {} {
      n := 0;
    } else {
      var x :| x in s;
      n := LongestBound(s - {x});
      if |x| > n { n := |x|; }
    }
  }

  /** In a set that the first-word map covers, a word it changes would need ever longer ones before it. */
  lemma {:induction false} NothingShortened(s: set<string>, y: string, n: nat)
    requires forall x :: x in s && x != "" ==> exists z :: z in s && FirstWord(z) == x
    requires forall x :: x in s ==> |x| <= n
    requires y in s
    ensures FirstWord(y) == y
    decreases n - |y|
  {
    hide FirstWord;
    FirstWordShorter(y);
    if y != "" {
      var z :| z in s && FirstWord(z) == y;
      FirstWordShorter(z);
      if z != y { NothingShortened(s, z, n); }
    }
  }

  /** A written file reloads to the same set if and only if the set holds the empty string and only clean entries. */
  lemma ReloadIsExact(lines: seq<string>, s: set<string>)
    requires Enumerates(lines, s)
    ensures Load(FileText(lines)) == s <==> "" in s && forall ip :: ip in s ==> Clean(ip)
  {
    hide FirstWord, FileText;
    if forall ip :: ip in s ==> Clean(ip) {
      ReloadAddsTheEmptyString(lines, s);
    } else if Load(FileText(lines)) == s {
      OneLineEach(lines, s);
      SplitFileText(lines);
      var n := LongestBound(s);
      forall x | x in s && x != ""
        ensures exists z :: z in s && FirstWord(z) == x
      {
        var z :| z in Split(FileText(lines), '\n') && FirstWord(z) == x;
        if z == "" { FirstWordShorter(""); }
      }
      forall ip | ip in s
        ensures Clean(ip)
      {
        NothingShortened(s, ip, n);
      }
    }
  }

  lemma OneLineEach(lines: seq<string>, s: set<string>)
    requires Load(FileText(lines)) == s
    ensures forall ip :: ip in s ==> '\n' !in ip
  {
    hide FirstWord, FileText;
    JoinSplit(FileText(lines), '\n');
    forall ip | ip in s
      ensures '\n' !in ip
    {
      var z :| z in Split(FileText(lines), '\n') && FirstWord(z) == ip;
      FirstWordShorter(z);
    }
  }

  // ---------------------------------------------------------------- one call by itself

  /** One list with its file, as a single call sees them. */
  class IpList {
    var ips: set<string>
    var file: seq<string>
    var temp: seq<string>

    constructor ()
      ensures ips == {} && file == []
    {
      ips, file, temp := {}, [], [];
    }

    /** write_set_to_file: the file is replaced by a complete listing of the set. */
    method WriteSetToFile()
      modifies this
      ensures ips == old(ips) && Enumerates(file, ips)
    {
      temp := [];
      var rest := ips;
      while rest != {}
        invariant ips == old(ips) && rest <= ips && Enumerates(temp, ips - rest)
        decreases rest
      {
        var ip :| ip in rest;
        temp := temp + [ip];
        rest := rest - {ip};
      }
      assert ips - rest == ips;
      file := temp;
    }

    method SetInsert(arg: string)
      modifies this
      ensures ips == Apply(Insert(arg), old(ips)) && Enumerates(file, ips)
      ensures forall ip :: ip in ips <==> ip in old(ips) || ip in Split(arg, '|')
    {
      var fields := Split(arg, '|');
      for i := 0 to |fields|
        invariant ips == old(ips) + set ip | ip in fields[..i]
      {
        assert fields[..i + 1] == fields[..i] + [fields[i]];
        ips := ips + {fields[i]};
      }
      assert fields[..|fields|] == fields;
      WriteSetToFile();
    }

    method SetRemove(arg: string)
      modifies this
      ensures ips == Apply(Remove(arg), old(ips)) && Enumerates(file, ips)
      ensures forall ip :: ip in ips <==> arg != "all" && ip in old(ips) && ip !in Split(arg, '|')
    {
      if arg == "all" {
        ips := {};
      } else {
        var fields := Split(arg, '|');
        for i := 0 to |fields|
          invariant ips == old(ips) - set ip | ip in fields[..i]
        {
          assert fields[..i + 1] == fields[..i] + [fields[i]];
          ips := ips - {fields[i]};
        }
        assert fields[..|fields|] == fields;
      }
      WriteSetToFile();
    }
  }
}
