/**
 Deleting a build: marker, row, directory, marker, with a crash possible between any two steps and
 a sweeper that finishes what a crash left behind.  Row ids are never reused, outputs are written
 only for live rows, and a nil result of RemoveAll means the directory is gone.
 */
module OutputDeletion {
  datatype Tomb = Tomb(mtime: int, content: nat)

  /** Who holds the lifecycle mutex, and how far it got. */
  datatype Holder =
    | Nobody
    | Marking(id: nat)
    | Renaming(id: nat, temp: nat)
    | DeletingRow(id: nat)
    | RemovingDir(id: nat)
    | Verifying(id: nat)
    | Unmarking(id: nat)
    | SweepCheckingRow(id: nat)
    | SweepInspecting(id: nat)
    | SweepRemoving(id: nat)
    | SweepUnmarking(id: nat)

  /** `temps` are half-written markers with their times. */
  datatype State = State(live: set<nat>, created: set<nat>, dirs: set<nat>, tombs: map<nat, Tomb>, temps: map<nat, int>,
                         now: int, holder: Holder)

  /** `fails` is an I/O or database error of the step; `gone` what a failing RemoveAll left. */
  datatype Event =
    | Create(id: nat)
    | WriteOutput(id: nat)
    | Tick(elapsed: nat)
    | Crash
    | DeleteBegin(id: nat)
    | DeleteMark(temp: nat, fails: bool)
    | DeleteRename(fails: bool)
    | DeleteRow(fails: bool)
    | DeleteDir(fails: bool, gone: bool)
    | DeleteVerify(fails: bool)
    | DeleteUnmark(fails: bool)
    | SweepLock(id: nat)
    | SweepRow(fails: bool)
    | SweepInspect(fails: bool, notDirectory: bool)
    | SweepDir(fails: bool, gone: bool)
    | SweepUnmark(fails: bool)

  function Release(s: State): State { s.(holder := Nobody) }

  function RemoveAll(s: State, id: nat, fails: bool, gone: bool): State {
    if fails && !gone then s else s.(dirs := s.dirs - {id})
  }

  function Step(s: State, e: Event): State {
    match (e, s.holder)
    case (Create(id), _) => if id == 0 || id in s.created then s else s.(live := s.live + {id}, created := s.created + {id})
    case (WriteOutput(id), _) => if id in s.live then s.(dirs := s.dirs + {id}) else s
    case (Tick(elapsed), _) => s.(now := s.now + elapsed)
    case (Crash, _) => Release(s)
    case (DeleteBegin(id), Nobody) => if id in s.created then s.(holder := Marking(id)) else s
    case (DeleteMark(temp, fails), Marking(id)) =>
      if id in s.tombs then (if s.tombs[id].content != id || fails then Release(s) else s.(holder := DeletingRow(id)))
      else if fails || temp in s.temps then Release(s)
      else s.(temps := s.temps[temp := s.now], holder := Renaming(id, temp))
    case (DeleteRename(fails), Renaming(id, temp)) =>
      var s' := s.(temps := s.temps - {temp});
      if fails then Release(s') else s'.(tombs := s.tombs[id := Tomb(s.now, id)], holder := DeletingRow(id))
    case (DeleteRow(fails), DeletingRow(id)) =>
      if fails then Release(s) else s.(live := s.live - {id}, holder := RemovingDir(id))
    case (DeleteDir(fails, gone), RemovingDir(id)) =>
      var s' := RemoveAll(s, id, fails, gone);
      if fails then Release(s') else s'.(holder := Verifying(id))
    case (DeleteVerify(fails), Verifying(id)) =>
      if fails || id in s.dirs then Release(s) else s.(holder := Unmarking(id))
    case (DeleteUnmark(fails), Unmarking(id)) =>
      if fails then Release(s) else Release(s.(tombs := s.tombs - {id}))
    case (SweepLock(id), Nobody) => if id in s.created then s.(holder := SweepCheckingRow(id)) else s
    case (SweepRow(fails), SweepCheckingRow(id)) =>
      if fails || id in s.live then Release(s) else s.(holder := SweepInspecting(id))
    case (SweepInspect(fails, notDirectory), SweepInspecting(id)) =>
      if fails || (id in s.dirs && notDirectory) then Release(s)
      else s.(holder := if id in s.dirs then SweepRemoving(id) else SweepUnmarking(id))
    case (SweepDir(fails, gone), SweepRemoving(id)) =>
      var s' := RemoveAll(s, id, fails, gone);
      if fails then Release(s') else s'.(holder := SweepUnmarking(id))
    case (SweepUnmark(fails), SweepUnmarking(id)) =>
      if fails then Release(s) else Release(s.(tombs := s.tombs - {id}))
    case _ => s
  }

  function Run(s: State, es: seq<Event>): State
    decreases |es|
  {
    if es == [] then s else Run(Step(s, es[0]), es[1..])
  }

  const EMPTY := State({}, {}, {}, map[], map[], 0, Nobody)

  // ---------------------------------------------------------------- safety

  predicate Deleted(s: State, id: nat) { id in s.created && id !in s.live }

  /** A removed row whose output directory still exists has a deletion marker. */
  ghost predicate Remembered(s: State) {
    forall id :: Deleted(s, id) && id in s.dirs ==> id in s.tombs
  }

  ghost predicate HolderOk(s: State) {
    match s.holder
    case Nobody => true
    case Marking(id) => id in s.created
    case Renaming(id, temp) => id in s.created && id !in s.tombs && temp in s.temps
    case DeletingRow(id) => id in s.created && id in s.tombs
    case RemovingDir(id) => Deleted(s, id) && id in s.tombs
    case Verifying(id) => Deleted(s, id) && id in s.tombs
    case Unmarking(id) => Deleted(s, id) && id !in s.dirs
    case SweepCheckingRow(id) => id in s.created
    case SweepInspecting(id) => Deleted(s, id)
    case SweepRemoving(id) => Deleted(s, id)
    case SweepUnmarking(id) => Deleted(s, id) && id !in s.dirs
  }

  ghost predicate Valid(s: State) {
    && s.live <= s.created && s.dirs <= s.created && s.tombs.Keys <= s.created
    && (forall id :: id in s.tombs ==> s.tombs[id].content == id && s.tombs[id].mtime <= s.now)
    && (forall t :: t in s.temps ==> s.temps[t] <= s.now)
    && HolderOk(s) && Remembered(s)
  }

  predicate Environment(e: Event) { e.Create? || e.WriteOutput? || e.Tick? || e.Crash? }

  predicate Marks(e: Event) { e.DeleteBegin? || e.DeleteMark? || e.DeleteRename? || e.DeleteRow? }

  predicate Sweeps(e: Event) { e.SweepLock? || e.SweepRow? || e.SweepInspect? || e.SweepDir? || e.SweepUnmark? }

  lemma EnvironmentValid(s: State, e: Event)
    requires Valid(s) && Environment(e)
    ensures Valid(Step(s, e))
  {}

  lemma MarksValid(s: State, e: Event)
    requires Valid(s) && Marks(e)
    ensures Valid(Step(s, e))
  {}

  lemma SweepsValid(s: State, e: Event)
    requires Valid(s) && Sweeps(e)
    ensures Valid(Step(s, e))
  {}

  lemma RemovesValid(s: State, e: Event)
    requires Valid(s) && !Environment(e) && !Marks(e) && !Sweeps(e)
    ensures Valid(Step(s, e))
  {}

  lemma StepValid(s: State, e: Event)
    requires Valid(s)
    ensures Valid(Step(s, e))
  {
    hide Valid, Step;
    if Environment(e) {
      EnvironmentValid(s, e);
    } else if Marks(e) {
      MarksValid(s, e);
    } else if Sweeps(e) {
      SweepsValid(s, e);
    } else {
      RemovesValid(s, e);
    }
  }

  /** Whatever crashes and errors happen, deleted output is always remembered. */
  lemma {:induction false} RunValid(s: State, es: seq<Event>)
    requires Valid(s)
    ensures Valid(Run(s, es))
    decreases |es|
  {
    if es != [] {
      hide Step, Valid;
      StepValid(s, es[0]);
      RunValid(Step(s, es[0]), es[1..]);
    }
  }

  /** No step ever takes the directory of a row that is live. */
  lemma LiveOutputStays(es: seq<Event>, e: Event, id: nat)
    requires var s := Run(EMPTY, es); id in s.live && id in s.dirs
    ensures id in Step(Run(EMPTY, es), e).dirs
  {
    RunValid(EMPTY, es);
  }

  lemma DeletedOutputIsRemembered(es: seq<Event>, id: nat)
    requires var s := Run(EMPTY, es); Deleted(s, id) && id in s.dirs
    ensures id in Run(EMPTY, es).tombs && Run(EMPTY, es).tombs[id].content == id
  {
    RunValid(EMPTY, es);
  }

  // ---------------------------------------------------------------- the sweeper

  const MAX_TOMBSTONES := 256

  /** What a name in the output root was recognised as. */
  datatype Entry = Tombstone(id: nat) | MarkerTemp(temp: nat) | Other

  function Ids(entries: seq<Entry>): seq<nat> {
    if entries == [] then [] else (if entries[0].Tombstone? then [entries[0].id] else []) + Ids(entries[1..])
  }

  /** The tombstones the sweeper looks at before its limit stops it. */
  function Considered(entries: seq<Entry>): seq<nat> {
    var ids := Ids(entries);
    if |ids| <= MAX_TOMBSTONES then ids else ids[..MAX_TOMBSTONES]
  }

  predicate Expired(now: int, mtime: int, ttl: int) { now - mtime >= ttl }

  /** The sweeper acts on a tombstone: known, not active, past its TTL, well formed, and its row is gone. */
  predicate Eligible(s: State, id: nat, ttl: int, active: set<nat>) {
    id != 0 && id !in active && id in s.tombs && Expired(s.now, s.tombs[id].mtime, ttl)
    && s.tombs[id].content == id && id !in s.live
  }

  function Swept(s: State, ids: seq<nat>, ttl: int, active: set<nat>): set<nat> {
    set id | id in ids && Eligible(s, id, ttl, active)
  }

  /** Half-written markers that the listing shows and that are past the TTL. */
  function StaleTemps(s: State, entries: seq<Entry>, ttl: int): set<nat> {
    set t | t in s.temps && MarkerTemp(t) in entries && Expired(s.now, s.temps[t], ttl)
  }

  /** An error-free sweep of a listing, as one change of state. */
  function Sweep(s: State, entries: seq<Entry>, ttl: int, active: set<nat>): State {
    var swept := Swept(s, Considered(entries), ttl, active);
    s.(dirs := s.dirs - swept, tombs := s.tombs - swept)
  }

  /** The id is among the first 256 markers listed, inactive and without a row; its marker is its own, and old enough. */
  ghost predicate SweptAway(s: State, entries: seq<Entry>, ttl: int, active: set<nat>, id: nat) {
    && id != 0
    && id !in active
    && id !in s.live
    && id in s.tombs
    && s.tombs[id].content == id
    && s.now - s.tombs[id].mtime >= ttl
    && exists k :: 0 <= k < |Ids(entries)| && k < 256 && Ids(entries)[k] == id
  }

  /** A sweep takes exactly the directories and markers of such ids: an active or live id, a fresh marker and a marker
      with another content are left alone, with their directories. */
  lemma SweepExactly(s: State, entries: seq<Entry>, ttl: int, active: set<nat>)
    ensures
      var s' := Sweep(s, entries, ttl, active);
      && s'.live == s.live
      && (forall id :: id in s'.dirs <==> id in s.dirs && !SweptAway(s, entries, ttl, active, id))
      && (forall id :: id in s'.tombs <==> id in s.tombs && !SweptAway(s, entries, ttl, active, id))
      && (forall id :: id in s'.tombs ==> s'.tombs[id] == s.tombs[id])
  {
    hide Ids;
    forall id: nat
      ensures id in Swept(s, Considered(entries), ttl, active) <==> SweptAway(s, entries, ttl, active, id)
    {
      ConsideredExactly(entries, id);
    }
  }

  lemma ConsideredExactly(entries: seq<Entry>, id: nat)
    ensures id in Considered(entries) <==> exists k :: 0 <= k < |Ids(entries)| && k < 256 && Ids(entries)[k] == id
  {
    hide Ids;
    var ids := Ids(entries);
    if k :| 0 <= k < |ids| && k < 256 && ids[k] == id {
      assert Considered(entries)[k] == id;
    }
    if id in Considered(entries) {
      var k :| 0 <= k < |Considered(entries)| && Considered(entries)[k] == id;
      assert k < |Ids(entries)| && k < 256 && Ids(entries)[k] == id;
    }
  }

  lemma StaleTempsExactly(s: State, entries: seq<Entry>, ttl: int)
    ensures forall t :: t in s.temps - StaleTemps(s, entries, ttl) <==>
      t in s.temps && !(MarkerTemp(t) in entries && s.now - s.temps[t] >= ttl)
  {}

  ghost predicate ListsAll(s: State, entries: seq<Entry>) {
    forall id :: id in s.tombs <==> id in Ids(entries)
  }

  /** After a crash anywhere in any run, one error-free sweep past the TTL leaves neither directory nor
      marker for a deleted row, and takes nothing that belongs to a live one. */
  lemma SweepFinishesDeletions(es: seq<Event>, entries: seq<Entry>, ttl: int, active: set<nat>)
    requires var s := Step(Run(EMPTY, es), Crash);
             && ListsAll(s, entries) && |Ids(entries)| <= 256
             && (forall id :: id in s.tombs ==> Expired(s.now, s.tombs[id].mtime, ttl))
             && (forall id :: id in active ==> !Deleted(s, id))
    ensures var s := Step(Run(EMPTY, es), Crash); var s' := Sweep(s, entries, ttl, active);
            && (forall id :: Deleted(s, id) ==> id !in s'.dirs && id !in s'.tombs)
            && (forall id :: id in s.live ==> (id in s'.dirs <==> id in s.dirs) && (id in s'.tombs <==> id in s.tombs))
  {
    RunValid(EMPTY, es);
    StepValid(Run(EMPTY, es), Crash);
    var s := Step(Run(EMPTY, es), Crash);
    CreatedPositive(EMPTY, es);
    forall id | Deleted(s, id) && id in s.tombs
      ensures id in Swept(s, Ids(entries), ttl, active)
    {
      assert Eligible(s, id, ttl, active);
    }
  }

  lemma {:induction false} CreatedPositive(s: State, es: seq<Event>)
    requires 0 !in s.created
    ensures 0 !in Run(s, es).created
    decreases |es|
  {
    if es != [] {
      CreatedPositive(Step(s, es[0]), es[1..]);
    }
  }

  lemma RunCons(s: State, e: Event, es: seq<Event>)
    ensures Run(s, [e] + es) == Run(Step(s, e), es)
  {
    hide Step;
    assert ([e] + es)[0] == e && ([e] + es)[1..] == es;
  }

  lemma RunFive(s: State, a: Event, b: Event, c: Event, d: Event, e: Event)
    ensures Run(s, [a, b, c, d, e]) == Step(Step(Step(Step(Step(s, a), b), c), d), e)
  {
    hide Step, Run;
    var s1 := Step(s, a); var s2 := Step(s1, b); var s3 := Step(s2, c); var s4 := Step(s3, d);
    assert [a, b, c, d, e] == [a] + [b, c, d, e] && [b, c, d, e] == [b] + [c, d, e];
    assert [c, d, e] == [c] + [d, e] && [d, e] == [d] + [e] && [e] == [e] + [];
    RunCons(s, a, [b, c, d, e]); RunCons(s1, b, [c, d, e]); RunCons(s2, c, [d, e]); RunCons(s3, d, [e]); RunCons(s4, e, []);
    assert Run(Step(s4, e), []) == Step(s4, e) by { RunNil(Step(s4, e)); }
  }

  lemma RunNil(s: State)
    ensures Run(s, []) == s
  {}

  lemma SweepLocked(s: State, id: nat)
    requires s.holder == Nobody && id in s.created && id !in s.live
    ensures Step(Step(s, SweepLock(id)), SweepRow(false)) == s.(holder := SweepInspecting(id))
  {
    var s1 := Step(s, SweepLock(id));
    assert s1 == s.(holder := SweepCheckingRow(id));
  }

  lemma SweepCleared(s: State, id: nat)
    requires s.holder == SweepInspecting(id)
    ensures Step(Step(s, SweepInspect(false, false)), SweepDir(false, true))
            == s.(dirs := s.dirs - {id}, holder := SweepUnmarking(id))
  {
    var s1 := Step(s, SweepInspect(false, false));
    if id in s.dirs {
      assert s1 == s.(holder := SweepRemoving(id));
    } else {
      assert s1 == s.(holder := SweepUnmarking(id)) && s.dirs - {id} == s.dirs;
    }
  }

  /** Sweeping an eligible id is the error-free run of the protocol's sweep steps; without a directory
      its removal step does nothing. */
  lemma SweepIsSteps(s: State, id: nat, ttl: int, active: set<nat>)
    requires Valid(s) && s.holder == Nobody && Eligible(s, id, ttl, active)
    ensures Run(s, [SweepLock(id), SweepRow(false), SweepInspect(false, false), SweepDir(false, true), SweepUnmark(false)])
            == s.(dirs := s.dirs - {id}, tombs := s.tombs - {id})
  {
    assert id in s.created && id !in s.live;
    hide Run, Valid, Eligible, Step;
    RunFive(s, SweepLock(id), SweepRow(false), SweepInspect(false, false), SweepDir(false, true), SweepUnmark(false));
    SweepLocked(s, id);
    var s2 := s.(holder := SweepInspecting(id));
    SweepCleared(s2, id);
    SweepUnmarked(s2.(dirs := s.dirs - {id}, holder := SweepUnmarking(id)), id);
  }

  lemma SweepUnmarked(s: State, id: nat)
    requires s.holder == SweepUnmarking(id)
    ensures Step(s, SweepUnmark(false)) == s.(tombs := s.tombs - {id}, holder := Nobody)
  {}

  datatype Outcome = Removed | Failed | CleanupPending

  /** Which operations of one deletion fail; `gone` says that a failing RemoveAll took the directory all the same. */
  datatype Faults = Faults(marking: bool, renaming: bool, syncing: bool, row: bool, directory: bool, gone: bool,
                           verifying: bool, unmarking: bool)
  {
    predicate Marks(marked: bool) { !marking && (marked || (!renaming && !syncing)) }

    function Result(marked: bool): Outcome {
      if !Marks(marked) || row then Failed
      else if directory || verifying || unmarking then CleanupPending
      else Removed
    }
  }

  /** The output root as the service sees it, with the mutex free. */
  class OutputRoot {
    var live: set<nat>
    var dirs: set<nat>
    var tombs: map<nat, Tomb>
    var temps: map<nat, int>
    var now: int
    ghost var created: set<nat>

    ghost function Disk(): State
      reads this
    {
      State(live, created, dirs, tombs, temps, now, Nobody)
    }

    /** ensureBuildOutputDeletionTombstone: on success the marker is there, whatever happens no half-written one is. */
    method EnsureTombstone(id: nat, temp: nat, f: Faults) returns (ok: bool)
      requires temp !in temps && (id in tombs ==> tombs[id].content == id)
      modifies `temps, `tombs
      ensures temps == old(temps)
      ensures ok <==> f.Marks(id in old(tombs))
      ensures ok ==> tombs == if id in old(tombs) then old(tombs) else old(tombs)[id := Tomb(now, id)]
      ensures tombs == old(tombs) || (id !in old(tombs) && tombs == old(tombs)[id := Tomb(now, id)])
    {
      if f.marking { return false; }
      if id in tombs { return tombs[id].content == id; }
      temps := temps[temp := now];
      temps := temps - {temp};
      if f.renaming { return false; }
      tombs := tombs[id := Tomb(now, id)];
      return !f.syncing;
    }

    /** Delete, undisturbed by a crash: a failure before the row is gone leaves row and output alone, a failure
        after it leaves the marker for the sweeper. */
    method Delete(id: nat, temp: nat, f: Faults) returns (outcome: Outcome)
      requires Valid(Disk()) && id in created && temp !in temps
      modifies this
      ensures Valid(Disk()) && created == old(created) && temps == old(temps) && now == old(now)
      ensures outcome == f.Result(id in old(tombs))
      ensures outcome.Removed? ==> live == old(live) - {id} && dirs == old(dirs) - {id} && tombs == old(tombs) - {id}
      ensures outcome.Failed? ==>
        && live == old(live)
        && dirs == old(dirs)
        && (tombs == old(tombs) || (id !in old(tombs) && tombs == old(tombs)[id := Tomb(now, id)]))
      ensures outcome.CleanupPending? ==>
        && live == old(live) - {id}
        && dirs == (if f.directory && !f.gone then old(dirs) else old(dirs) - {id})
        && tombs == if id in old(tombs) then old(tombs) else old(tombs)[id := Tomb(now, id)]
    {
      var marked := EnsureTombstone(id, temp, f);
      if !marked || f.row { return Failed; }
      live := live - {id};
      if f.directory {
        if f.gone { dirs := dirs - {id}; }
        return CleanupPending;
      }
      dirs := dirs - {id};
      if id in dirs || f.verifying || f.unmarking { return CleanupPending; }
      tombs := tombs - {id};
      return Removed;
    }

    /** sweepBuildOutputDeletionTombstones: the loop over the directory listing does exactly one Sweep,
        and removes the stale half-written markers it passes. */
    method SweepTombstones(entries: seq<Entry>, ttl: int, active: set<nat>) returns (limited: bool)
      modifies this
      ensures Disk().(temps := old(temps)) == Sweep(old(Disk()), entries, ttl, active)
      ensures live == old(live)
      ensures forall id :: id in dirs <==> id in old(dirs) && !SweptAway(old(Disk()), entries, ttl, active, id)
      ensures forall id :: id in tombs <==> id in old(tombs) && !SweptAway(old(Disk()), entries, ttl, active, id)
      ensures forall id :: id in tombs ==> tombs[id] == old(tombs)[id]
      ensures limited <==> |Ids(entries)| > 256
      ensures !limited ==> forall t :: t in temps <==> t in old(temps) && !(MarkerTemp(t) in entries && old(now) - old(temps)[t] >= ttl)
    {
      hide Eligible, Expired, Swept, StaleTemps, Ids;
      ghost var s := Disk();
      SweepExactly(s, entries, ttl, active);
      StaleTempsExactly(s, entries, ttl);
      var candidates := 0;
      var i := 0;
      NothingListed(s, ttl, active);
      assert entries[..0] == [];
      while i < |entries|
        invariant 0 <= i <= |entries| && candidates == |Ids(entries[..i])| <= MAX_TOMBSTONES
        invariant SweptSoFar(s, Ids(entries[..i]), ttl, active)
        invariant temps == s.temps - StaleTemps(s, entries[..i], ttl)
      {
        var entry := entries[i];
        IdsSnoc(entries, i);
        StaleSnoc(s, entries, i, ttl);
        match entry {
          case MarkerTemp(t) =>
            ghost var stale := StaleTemps(s, entries[..i], ttl);
            if t in temps && Expired(now, temps[t], ttl) {
              temps := temps - {t};
            }
            assert temps == s.temps - (stale + if t in s.temps && Expired(s.now, s.temps[t], ttl) then {t} else {});
          case Tombstone(id) =>
            candidates := candidates + 1;
            if candidates > MAX_TOMBSTONES {
              IdsPrefix(entries, i + 1);
              assert Considered(entries) == Ids(entries[..i]);
              return true;
            }
            SweptSnoc(s, Ids(entries[..i]), id, ttl, active);
            ghost var swept := Swept(s, Ids(entries[..i]), ttl, active);
            ghost var gone := if Eligible(Disk(), id, ttl, active) then {id} else {};
            SweepOne(id, ttl, active);
            assert dirs == s.dirs - (swept + gone) && tombs == s.tombs - (swept + gone);
          case Other =>
        }
        i := i + 1;
      }
      assert entries[..i] == entries;
      return false;
    }

    ghost predicate SweptSoFar(s: State, ids: seq<nat>, ttl: int, active: set<nat>)
      reads this
    {
      && live == s.live && created == s.created && now == s.now
      && dirs == s.dirs - Swept(s, ids, ttl, active) && tombs == s.tombs - Swept(s, ids, ttl, active)
    }

    /** Sweeping one more id now is sweeping it at the start. */
    lemma SweptSnoc(s: State, ids: seq<nat>, id: nat, ttl: int, active: set<nat>)
      requires SweptSoFar(s, ids, ttl, active)
      ensures Swept(s, ids + [id], ttl, active) == Swept(s, ids, ttl, active) + (if Eligible(Disk(), id, ttl, active) then {id} else {})
    {
      assert Eligible(Disk(), id, ttl, active) <==> Eligible(s, id, ttl, active) && id !in Swept(s, ids, ttl, active);
    }

    /** One tombstone of the listing; it may have gone meanwhile. */
    method SweepOne(id: nat, ttl: int, active: set<nat>)
      modifies `dirs, `tombs
      ensures var gone := if Eligible(old(Disk()), id, ttl, active) then {id} else {};
              dirs == old(dirs) - gone && tombs == old(tombs) - gone
      ensures id in old(dirs) && id !in dirs ==> id !in active && id !in live && id in old(tombs) && now - old(tombs)[id].mtime >= ttl
      ensures id in old(tombs) ==>
        (id !in tombs <==> id != 0 && id !in active && id !in live && old(tombs)[id].content == id && now - old(tombs)[id].mtime >= ttl)
    {
      if id == 0 || id in active || id !in tombs { return; }
      if now - tombs[id].mtime < ttl { return; }
      if tombs[id].content != id { return; }
      if id in live { return; }
      if id in dirs {
        dirs := dirs - {id};
      }
      tombs := tombs - {id};
    }
  }

  lemma NothingListed(s: State, ttl: int, active: set<nat>)
    ensures Ids([]) == [] && StaleTemps(s, [], ttl) == {} && Swept(s, [], ttl, active) == {}
  {}

  lemma StaleSnoc(s: State, entries: seq<Entry>, i: nat, ttl: int)
    requires i < |entries|
    ensures
      var before, after := StaleTemps(s, entries[..i], ttl), StaleTemps(s, entries[..i + 1], ttl);
      match entries[i]
      case MarkerTemp(t) => after == before + if t in s.temps && Expired(s.now, s.temps[t], ttl) then {t} else {}
      case _ => after == before
  {
    assert entries[..i + 1] == entries[..i] + [entries[i]];
  }

  lemma {:induction false} IdsConcat(a: seq<Entry>, b: seq<Entry>)
    ensures Ids(a + b) == Ids(a) + Ids(b)
    decreases |a|
  {
    if a == [] {
      assert a + b == b;
    } else {
      IdsConcat(a[1..], b);
      assert (a + b)[0] == a[0] && (a + b)[1..] == a[1..] + b;
    }
  }

  lemma IdsSnoc(entries: seq<Entry>, i: nat)
    requires i < |entries|
    ensures Ids(entries[..i + 1]) == if entries[i].Tombstone? then Ids(entries[..i]) + [entries[i].id] else Ids(entries[..i])
  {
    assert entries[..i + 1] == entries[..i] + [entries[i]];
    IdsConcat(entries[..i], [entries[i]]);
  }

  lemma IdsPrefix(entries: seq<Entry>, i: nat)
    requires i <= |entries|
    ensures Ids(entries[..i]) <= Ids(entries)
  {
    assert entries == entries[..i] + entries[i..];
    IdsConcat(entries[..i], entries[i..]);
  }
}
