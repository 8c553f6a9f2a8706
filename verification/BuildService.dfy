/**
 The service methods over the build table, in the source's form: guards tested in order, then one
 conditional update.  Each method is tied to the steps of BuildLifecycle, so every invariant proved
 there for all runs holds of them; between two accesses of one call any other calls may run.
 */
module BuildService {
  import opened Wrappers
  import opened BuildLifecycle

  /** The call slot an event works in. */
  predicate Uses(e: Event, call: nat) {
    match e
    case RecordRead(c, _, _, _, _, _, _) => c == call
    case RecordWrite(c, _) => c == call
    case RecordRecheck(c) => c == call
    case CompleteRead(c, _, _, _) => c == call
    case CompleteWrite(c) => c == call
    case EditRead(c, _, _, _) => c == call
    case EditWrite(c) => c == call
    case _ => false
  }

  /** Calls other than `call` took `s` to `s'`. */
  ghost predicate OthersRan(call: nat, s: State, s': State) {
    exists es :: (forall e :: e in es ==> !Uses(e, call)) && s' == Run(s, es)
  }

  lemma ForeignStep(call: nat, s: State, e: Event)
    requires !Uses(e, call)
    ensures call in Step(s, e).0.calls <==> call in s.calls
    ensures call in s.calls ==> Step(s, e).0.calls[call] == s.calls[call]
  {
    hide ValidRecord, ValidProvenance, ValidIdentity, Report, Dispatched, Undispatched, DigestMatches, ComputedDigest,
      ValidSha, ActiveArtifact, ActiveRun, ProviderBacked, Lower;
  }

  lemma {:induction false} OthersKeep(call: nat, s: State, es: seq<Event>)
    requires Valid(s) && forall e :: e in es ==> !Uses(e, call)
    ensures var s' := Run(s, es);
            Valid(s') && Extends(s, s') && (call in s.calls <==> call in s'.calls)
            && (call in s.calls ==> s'.calls[call] == s.calls[call])
    decreases |es|
  {
    RunKeeps(s, es);
    if es != [] {
      hide Valid, Extends, Step;
      assert es[0] in es;
      ForeignStep(call, s, es[0]);
      StepKeeps(s, es[0]);
      OthersKeep(call, Step(s, es[0]).0, es[1..]);
    }
  }

  class CustomBuildService {
    var rows: map<nat, Row>
    var calls: map<nat, Call>
    ghost var created: set<nat>
    ghost var tracked: set<nat>

    ghost function Database(): State
      reads this
    {
      State(rows, created, tracked, calls)
    }

    constructor ()
      ensures Database() == EMPTY
    {
      rows, calls, created, tracked := map[], map[], {}, {};
    }

    /** The guarded update of a dispatch, column by column. */
    method SetProvenance(id: nat, p: Provenance, formats: bool) returns (ok: bool)
      modifies this
      ensures (Database(), if ok then Ok else Error) == Step(old(Database()), Event.SetProvenance(id, p, formats))
      ensures ok <==> id != 0 && ValidProvenance(p, formats) && id in old(rows) && Dispatchable(old(rows)[id], p)
      ensures
        if !ok then rows == old(rows)
        else
          var r := old(rows)[id];
          rows == old(rows)[id := Row(Building, p.identity, p.selector, p.workflowSha, p.dispatch, p.runId, 0, "", r.marker, r.digest,
                                      r.manifest, r.name, r.platform, r.appName, r.json, "github run id", r.fileSize)]
    {
      hide ValidIdentity, Lower, Undispatched, Dispatchable;
      if id in rows { UndispatchedIsDispatchable(rows[id], p); }
      BoundedLog("", "github run id");
      if id == 0 { return false; }
      var sha := if p.workflowSha == "" then p.githubRef else p.workflowSha;
      if p.workflowSha != "" && p.githubRef != "" && Lower(p.workflowSha) != Lower(p.githubRef) { return false; }
      if !ValidIdentity(p.identity, p.selector, sha, formats) || !Complete(p.dispatch) || p.runId <= 0 { return false; }
      if p.sourceSha != "" && (!ValidSha(p.sourceSha) || Lower(p.sourceSha) != Lower(sha)) { return false; }
      if p.artifactId < 0 { return false; }
      if id !in rows || !Undispatched(rows[id], p) { return false; }
      var r := rows[id];
      assert r.artifactId == 0 && r.sourceSha == "" by { DispatchableIsFresh(r, p); }
      rows := rows[id := r.(status := Building, identity := p.identity, selector := p.selector, githubRef := p.workflowSha,
                            dispatch := p.dispatch, runId := p.runId, log := BoundLog("", "github run id"))];
      return true;
    }

    method SetArtifactID(id: nat, runId: int, artifactId: int) returns (ok: bool)
      modifies this
      ensures (Database(), if ok then Ok else Error) == Step(old(Database()), Event.SetArtifactID(id, runId, artifactId))
      ensures ok <==> id != 0 && runId > 0 && artifactId > 0 && InProgress(old(rows), id, runId) && old(rows)[id].artifactId == 0
      ensures rows == if ok then old(rows)[id := old(rows)[id].(artifactId := artifactId)] else old(rows)
    {
      if id == 0 || runId <= 0 || artifactId <= 0 { return false; }
      if id !in rows || rows[id].runId != runId || !Active(rows[id].status) || rows[id].artifactId != 0 { return false; }
      rows := rows[id := rows[id].(artifactId := artifactId)];
      return true;
    }

    method SetSourceSha(id: nat, runId: int, sha: string) returns (ok: bool)
      modifies this
      ensures (Database(), if ok then Ok else Error) == Step(old(Database()), Event.SetSourceSha(id, runId, sha))
      ensures ok <==>
        && id != 0
        && runId > 0
        && ValidSha(sha)
        && InProgress(old(rows), id, runId)
        && old(rows)[id].sourceSha == ""
        && CaseOnly(old(rows)[id].githubRef, sha)
      ensures rows == if ok then old(rows)[id := old(rows)[id].(sourceSha := sha)] else old(rows)
    {
      hide Lower, Hex, CaseOnly;
      if id == 0 || runId <= 0 || !ValidSha(sha) { return false; }
      if id !in rows || rows[id].runId != runId || !Active(rows[id].status) { return false; }
      LowerIsCaseOnly(rows[id].githubRef, sha);
      if Lower(rows[id].githubRef) != Lower(sha) || rows[id].sourceSha != "" { return false; }
      rows := rows[id := rows[id].(sourceSha := sha)];
      return true;
    }

    method UpdateNoRunFailure(p: Progress) returns (ok: bool)
      modifies this
      ensures (Database(), if ok then Ok else Error) == Step(old(Database()), Event.UpdateNoRunFailure(p))
      ensures ok <==> p.id != 0 && p.runId == 0 && p.status == Failed && InProgress(old(rows), p.id, 0)
      ensures rows == if ok then old(rows)[p.id := old(rows)[p.id].(status := Failed, log := BoundLog(p.log, ""), fileSize := p.fileSize)] else old(rows)
    {
      if p.id == 0 || p.runId != 0 || p.status != Failed { return false; }
      if p.id !in rows || !Active(rows[p.id].status) || rows[p.id].runId != 0 { return false; }
      rows := rows[p.id := rows[p.id].(status := p.status, log := BoundLog(p.log, ""), fileSize := p.fileSize)];
      return true;
    }

    method UpdatePendingFailure(p: Progress) returns (ok: bool)
      modifies this
      ensures (Database(), if ok then Ok else Error) == Step(old(Database()), Event.UpdatePendingFailure(p))
      ensures ok <==>
        && p.id != 0
        && p.runId == 0
        && p.status == Failed
        && p.id in old(rows)
        && old(rows)[p.id].status == Pending
        && old(rows)[p.id].runId == 0
      ensures rows == if ok then old(rows)[p.id := old(rows)[p.id].(status := Failed, log := BoundLog(p.log, ""), fileSize := p.fileSize)] else old(rows)
    {
      if p.id == 0 || p.runId != 0 || p.status != Failed { return false; }
      if p.id !in rows || rows[p.id].status != Pending || rows[p.id].runId != 0 { return false; }
      rows := rows[p.id := rows[p.id].(status := p.status, log := BoundLog(p.log, ""), fileSize := p.fileSize)];
      return true;
    }

    /** Between two database accesses of `call`: anything the other calls may do.  The body does nothing;
        callers may rely on no more than the contract. */
    method Others(call: nat)
      requires Valid(Database())
      modifies this
      ensures OthersRan(call, old(Database()), Database())
    {
      assert Run(Database(), []) == Database();
    }

    /** RecordPublishedOutput: the guarded read, the computation on files, the guarded write, and the re-read when the
        write found no row.  `atWrite` and `atRecheck` are the database as the write and the re-read find it.

        A call that may not record, or finds a publication, changes nothing.  Otherwise the write decides: if it finds the
        row unpublished, the call succeeds and the row gains marker, digest and manifest; if not, the re-read decides, and
        the call succeeds exactly when the row then stores the digest computed here. */
    method RecordPublishedOutput(call: nat, id: nat, runId: int, artifactId: int, supplied: Option<string>,
                                 output: Option<string>, checks: bool, now: Moment)
      returns (ok: bool, ghost atWrite: State, ghost atRecheck: State)
      requires Valid(Database()) && call !in calls
      modifies this
      ensures Valid(Database()) && Extends(old(Database()), Database()) && call !in calls
      ensures ok ==> id in rows && rows[id].marker > 0 && Some(rows[id].digest) == output
      ensures !Recordable(old(rows), id, runId, artifactId, supplied, output, checks) ==> !ok && Database() == old(Database())
      ensures Recordable(old(rows), id, runId, artifactId, supplied, output, checks) && Published(old(rows)[id]) ==>
        Database() == old(Database()) && (ok <==> old(rows)[id].digest == output.value)
      ensures Recordable(old(rows), id, runId, artifactId, supplied, output, checks) && !Published(old(rows)[id]) ==>
        var manifest := Manifest(supplied, old(rows)[id]);
        && OthersRan(call, Hold(old(Database()), call, Recording(id, runId, artifactId, output.value, manifest)), atWrite)
        && if Unpublished(atWrite.rows, id, runId, artifactId) then
             ok && rows == atWrite.rows[id := WithPublication(atWrite.rows[id], now, output.value, manifest)]
           else
             && OthersRan(call, Hold(atWrite, call, Rechecking(id, runId, artifactId, output.value)), atRecheck)
             && rows == atRecheck.rows
             && (ok <==> InProgress(rows, id, runId) && rows[id].artifactId == artifactId && rows[id].marker > 0 && rows[id].digest == output.value)
      ensures
        && Recordable(old(rows), id, runId, artifactId, supplied, output, checks)
        && !Published(old(rows)[id])
        && id in atWrite.rows
        && atWrite.rows[id] == old(rows)[id] ==>
          ok && id in rows && rows[id] == WithPublication(old(rows)[id], now, output.value, Manifest(supplied, old(rows)[id]))
    {
      hide Lower, Hex, ValidProvenance, Keeps, Extends, Run, GoodRow, GoodCalls, ComputedDigest, DigestMatches;
      ghost var s0 := Database();
      atWrite, atRecheck := s0, s0;
      Unchanged(s0);
      if id == 0 || runId <= 0 || artifactId <= 0 { return false, s0, s0; }
      if id !in rows || !Active(rows[id].status) || rows[id].runId != runId || rows[id].artifactId != artifactId { return false, s0, s0; }
      var r := rows[id];
      if !ValidRecord(r, checks) || output.None? || !ComputedDigest(output.value) { return false, s0, s0; }
      if supplied.Some? && r.manifest != "" && supplied.value != r.manifest { return false, s0, s0; }
      var manifest := if supplied.Some? then supplied.value else r.manifest;
      MarkedIffDigest(s0, id);
      if r.marker > 0 || r.digest != "" {
        ok := r.marker > 0 && DigestMatches(r.digest, output.value);
        MatchIsEqual(s0, id, output.value);
        return;
      }
      StepKeeps(s0, Event.RecordRead(call, id, runId, artifactId, supplied, output, checks));
      calls := calls[call := Recording(id, runId, artifactId, output.value, manifest)];
      ok, atWrite, atRecheck := FinishRecording(s0, call, now);
    }

    /** The guarded write. */
    method FinishRecording(ghost s0: State, call: nat, now: Moment) returns (ok: bool, ghost atWrite: State, ghost atRecheck: State)
      requires Valid(s0) && Valid(Database()) && Extends(s0, Database())
      requires call in calls && calls[call].Recording?
      modifies this
      ensures Valid(Database()) && Extends(s0, Database()) && call !in calls
      ensures OthersRan(call, old(Database()), atWrite)
      ensures
        var c := old(calls[call]);
        if Unpublished(atWrite.rows, c.id, c.runId, c.artifactId) then
          ok && rows == atWrite.rows[c.id := WithPublication(atWrite.rows[c.id], now, c.digest, c.manifest)]
        else
          && OthersRan(call, Hold(atWrite, call, Rechecking(c.id, c.runId, c.artifactId, c.digest)), atRecheck)
          && rows == atRecheck.rows
          && (ok <==> InProgress(rows, c.id, c.runId) && rows[c.id].artifactId == c.artifactId && rows[c.id].marker > 0 && rows[c.id].digest == c.digest)
    {
      hide Lower, Hex, ValidProvenance, Keeps, Extends, Run, GoodRow, GoodCalls;
      var c := calls[call];
      assert ComputedDigest(c.digest) by { CallIsGood(Database(), call); }
      After(s0, call);
      atWrite := Database();
      atRecheck := atWrite;
      StepKeeps(atWrite, Event.RecordWrite(call, now));
      ExtendsTransitive(s0, atWrite, Step(atWrite, Event.RecordWrite(call, now)).0);
      if c.id in rows && Active(rows[c.id].status) && rows[c.id].runId == c.runId && rows[c.id].artifactId == c.artifactId
         && rows[c.id].marker == 0 && rows[c.id].digest == "" {
        var r := rows[c.id];
        rows := rows[c.id := r.(marker := now, digest := c.digest, manifest := if c.manifest != "" then c.manifest else r.manifest)];
        calls := calls - {call};
        return true, atWrite, atRecheck;
      }
      calls := calls[call := Rechecking(c.id, c.runId, c.artifactId, c.digest)];
      ok, atRecheck := Recheck(s0, call);
    }

    /** The re-read after a conditional write that found no row. */
    method Recheck(ghost s0: State, call: nat) returns (ok: bool, ghost atRecheck: State)
      requires Valid(s0) && Valid(Database()) && Extends(s0, Database())
      requires call in calls && calls[call].Rechecking?
      modifies this
      ensures Valid(Database()) && Extends(s0, Database()) && call !in calls
      ensures OthersRan(call, old(Database()), atRecheck) && rows == atRecheck.rows
      ensures
        var c := old(calls[call]);
        ok <==> InProgress(rows, c.id, c.runId) && rows[c.id].artifactId == c.artifactId && rows[c.id].marker > 0 && rows[c.id].digest == c.digest
    {
      hide Lower, Hex, ValidProvenance, Keeps, Extends, Run, GoodRow, GoodCalls, DigestMatches, ComputedDigest;
      var c := calls[call];
      assert ComputedDigest(c.digest) by { CallIsGood(Database(), call); }
      After(s0, call);
      atRecheck := Database();
      StepKeeps(atRecheck, Event.RecordRecheck(call));
      ExtendsTransitive(s0, atRecheck, Step(atRecheck, Event.RecordRecheck(call)).0);
      calls := calls - {call};
      if c.id in rows {
        MarkedIffDigest(atRecheck, c.id);
        MatchIsEqual(atRecheck, c.id, c.digest);
      }
      ok := c.id in rows && Active(rows[c.id].status) && rows[c.id].runId == c.runId && rows[c.id].artifactId == c.artifactId
            && rows[c.id].marker > 0 && rows[c.id].digest != "" && DigestMatches(rows[c.id].digest, c.digest);
    }

    /** Others(call), with its effect stated as what is kept since `s0`. */
    method After(ghost s0: State, call: nat)
      requires Valid(s0) && Valid(Database()) && Extends(s0, Database()) && call in calls
      modifies this
      ensures Valid(Database()) && Extends(s0, Database()) && call in calls && calls[call] == old(calls[call])
      ensures OthersRan(call, old(Database()), Database())
    {
      hide Valid, Extends, Run;
      ghost var s1 := Database();
      Others(call);
      ghost var es :| (forall e :: e in es ==> !Uses(e, call)) && Database() == Run(s1, es);
      OthersKeep(call, s1, es);
      ExtendsTransitive(s0, s1, Database());
    }

    /** UpdateProgress: a plain report is one guarded update; completion first checks the publication on disk, and
        `atWrite` is the database as its update finds it.  A completion succeeds exactly when the check passes and the
        row is then still in progress with its artifact and publication. */
    method UpdateProgress(call: nat, p: Progress, output: Option<string>, checks: bool) returns (ok: bool, ghost atWrite: State)
      requires Valid(Database()) && call !in calls
      modifies this
      ensures Valid(Database()) && Extends(old(Database()), Database()) && call !in calls
      ensures ok ==> p.id in rows && rows[p.id].status == p.status && rows[p.id].runId == p.runId && rows[p.id].fileSize == p.fileSize
      ensures ok && p.status.Done? ==> output.Some? && DigestMatches(rows[p.id].digest, output.value) && rows[p.id].artifactId == p.artifactId > 0
      ensures !p.status.Done? ==>
        && (ok <==> p.id != 0 && p.runId > 0 && p.status != Pending && InProgress(old(rows), p.id, p.runId))
        && rows == if ok then old(rows)[p.id := WithReport(old(rows)[p.id], p)] else old(rows)
      ensures p.status.Done? && !Completable(old(rows), p, output, checks) ==> !ok && Database() == old(Database())
      ensures p.status.Done? && Completable(old(rows), p, output, checks) ==>
        && OthersRan(call, Hold(old(Database()), call, Completing(p, output.value)), atWrite)
        && (ok <==> InProgress(atWrite.rows, p.id, p.runId) && atWrite.rows[p.id].artifactId == p.artifactId && Published(atWrite.rows[p.id]))
        && rows == if ok then atWrite.rows[p.id := WithReport(atWrite.rows[p.id], p)] else atWrite.rows
    {
      hide Lower, Hex, ValidRecord, Keeps, Extends, Run, GoodRow, GoodCalls;
      ghost var s0 := Database();
      atWrite := s0;
      Unchanged(s0);
      if p.id == 0 || p.runId <= 0 || p.status == Pending { return false, s0; }
      if p.status != Done {
        StepKeeps(s0, Event.UpdateProgress(p));
        if p.id !in rows || !Active(rows[p.id].status) || rows[p.id].runId != p.runId { return false, s0; }
        rows := rows[p.id := rows[p.id].(status := p.status, log := BoundLog(p.log, ""), fileSize := p.fileSize)];
        return true, s0;
      }
      if p.artifactId <= 0 || p.id !in rows { return false, s0; }
      var r := rows[p.id];
      if !ValidRecord(r, checks) || r.runId != p.runId || r.artifactId != p.artifactId { return false, s0; }
      if r.marker <= 0 || output.None? || !DigestMatches(r.digest, output.value) { return false, s0; }
      StepKeeps(s0, Event.CompleteRead(call, p, output, checks));
      calls := calls[call := Completing(p, output.value)];
      ok, atWrite := FinishCompletion(s0, call);
    }

    /** The guarded update of a completion. */
    method FinishCompletion(ghost s0: State, call: nat) returns (ok: bool, ghost atWrite: State)
      requires Valid(s0) && Valid(Database()) && Extends(s0, Database())
      requires call in calls && calls[call].Completing?
      modifies this
      ensures Valid(Database()) && Extends(s0, Database()) && call !in calls
      ensures OthersRan(call, old(Database()), atWrite)
      ensures
        var p := old(calls[call]).progress;
        && (ok <==> InProgress(atWrite.rows, p.id, p.runId) && atWrite.rows[p.id].artifactId == p.artifactId && Published(atWrite.rows[p.id]))
        && rows == (if ok then atWrite.rows[p.id := WithReport(atWrite.rows[p.id], p)] else atWrite.rows)
        && (ok ==> DigestMatches(rows[p.id].digest, old(calls[call]).observed) && rows[p.id].artifactId == p.artifactId > 0)
    {
      hide Lower, Hex, DigestMatches, Keeps, Extends, Run, GoodRow, GoodRows, GoodCalls;
      var p := calls[call].progress;
      After(s0, call);
      atWrite := Database();
      StepKeeps(atWrite, Event.CompleteWrite(call));
      ExtendsTransitive(s0, atWrite, Step(atWrite, Event.CompleteWrite(call)).0);
      CallIsGood(atWrite, call);
      calls := calls - {call};
      if p.id in rows { MarkedIffDigest(atWrite, p.id); }
      if p.id in rows && Active(rows[p.id].status) && rows[p.id].runId == p.runId && rows[p.id].artifactId == p.artifactId
         && rows[p.id].marker > 0 && rows[p.id].digest != "" {
        rows := rows[p.id := rows[p.id].(status := p.status, log := BoundLog(p.log, ""), fileSize := p.fileSize)];
        return true, atWrite;
      }
      return false, atWrite;
    }
  }

  // ---------------------------------------------------------------- what the contracts say

  /** Dispatched under this run and not yet finished. */
  predicate InProgress(rows: map<nat, Row>, id: nat, runId: int) {
    id in rows && rows[id].status in {Building, Downloading, Extracting} && rows[id].runId == runId
  }

  predicate Published(r: Row) { r.marker > 0 && r.digest != "" }

  /** The row that the conditional write of a publication looks for. */
  predicate Unpublished(rows: map<nat, Row>, id: nat, runId: int, artifactId: int) {
    InProgress(rows, id, runId) && rows[id].artifactId == artifactId && rows[id].marker == 0 && rows[id].digest == ""
  }

  /** The call may record, as far as its read and its computation say. */
  predicate Recordable(rows: map<nat, Row>, id: nat, runId: int, artifactId: int, supplied: Option<string>, output: Option<string>, checks: bool) {
    && id != 0
    && runId > 0
    && artifactId > 0
    && InProgress(rows, id, runId)
    && rows[id].artifactId == artifactId
    && ValidRecord(rows[id], checks)
    && (supplied.Some? && rows[id].manifest != "" ==> supplied.value == rows[id].manifest)
    && output.Some?
    && ComputedDigest(output.value)
  }

  function Manifest(supplied: Option<string>, r: Row): string { if supplied.Some? then supplied.value else r.manifest }

  /** The row with its publication; an empty manifest is not written. */
  function WithPublication(r: Row, now: Moment, digest: string, manifest: string): Row {
    Row(r.status, r.identity, r.selector, r.githubRef, r.dispatch, r.runId, r.artifactId, r.sourceSha, now, digest,
        if manifest == "" then r.manifest else manifest, r.name, r.platform, r.appName, r.json, r.log, r.fileSize)
  }

  /** The row with a report. */
  function WithReport(r: Row, p: Progress): Row {
    Row(p.status, r.identity, r.selector, r.githubRef, r.dispatch, r.runId, r.artifactId, r.sourceSha, r.marker, r.digest,
        r.manifest, r.name, r.platform, r.appName, r.json, BoundLog(p.log, ""), p.fileSize)
  }

  /** The publication of the row is proved on disk for this run and artifact. */
  predicate Completable(rows: map<nat, Row>, p: Progress, output: Option<string>, checks: bool) {
    && p.id != 0
    && p.runId > 0
    && p.artifactId > 0
    && p.id in rows
    && ValidRecord(rows[p.id], checks)
    && rows[p.id].runId == p.runId
    && rows[p.id].artifactId == p.artifactId
    && rows[p.id].marker > 0
    && output.Some?
    && DigestMatches(rows[p.id].digest, output.value)
  }

  /** Pending, never dispatched, and either without a release identity or with the one of the dispatch. */
  predicate Dispatchable(r: Row, p: Provenance) {
    && r.status == Pending
    && r.runId == 0
    && r.artifactId == 0
    && r.sourceSha == ""
    && r.dispatch.provider == r.dispatch.workflow == r.dispatch.artifactName == r.dispatch.runUrl == r.dispatch.htmlUrl == ""
    && (r.identity == p.identity || r.identity == Identity("", "", "", "", 0, r.identity.assets, ""))
    && (r.selector == "" || r.selector == p.selector)
    && (r.githubRef == "" || CaseOnly(r.githubRef, p.workflowSha))
  }

  /** Two strings that differ at most in the case of ASCII letters. */
  predicate CaseOnly(a: string, b: string) {
    |a| == |b| && forall i :: 0 <= i < |a| ==> a[i] == b[i] || CasePair(a[i], b[i]) || CasePair(b[i], a[i])
  }

  predicate CasePair(upper: char, lower: char) { 'A' <= upper <= 'Z' && lower as int == upper as int + 32 }

  lemma LowerIsCaseOnly(a: string, b: string)
    ensures Lower(a) == Lower(b) <==> CaseOnly(a, b)
  {
    if Lower(a) == Lower(b) {
      assert |a| == |Lower(a)| == |Lower(b)| == |b|;
      forall i | 0 <= i < |a|
        ensures a[i] == b[i] || CasePair(a[i], b[i]) || CasePair(b[i], a[i])
      {
        assert Lower(a)[i] == Lower(b)[i];
      }
    }
  }

  lemma UndispatchedIsDispatchable(r: Row, p: Provenance)
    ensures Undispatched(r, p) <==> Dispatchable(r, p)
  {
    hide Lower, CaseOnly;
    LowerIsCaseOnly(r.githubRef, p.workflowSha);
  }

  lemma DispatchableIsFresh(r: Row, p: Provenance)
    requires Dispatchable(r, p)
    ensures r.artifactId == 0 && r.sourceSha == ""
  {}

  /** The log keeps the end of the old text, a line break and the message, at most 4096 characters of it. */
  lemma BoundedLog(existing: string, message: string)
    ensures
      var all := Joined(existing, message);
      var kept := BoundLog(existing, message);
      && |kept| == (if |all| < 4096 then |all| else 4096)
      && kept == all[|all| - |kept|..]
  {
    if message == "" {
      assert Joined(existing, message) == existing;
    } else if existing == "" {
      assert Joined(existing, message) == message;
    }
  }

  /** The old text and the message, with a line break between them if there are both. */
  function Joined(existing: string, message: string): string {
    if message == "" then existing else if existing == "" then message else existing + "\n" + message
  }

  predicate ShaText(s: string) { 40 <= |s| <= 64 && forall c :: c in s ==> c in "0123456789abcdefABCDEF" }

  lemma HexDigit(c: char)
    ensures ('0' <= c <= '9' || 'a' <= c <= 'f' || 'A' <= c <= 'F') <==> c in "0123456789abcdefABCDEF"
    ensures ('0' <= c <= '9' || 'a' <= c <= 'f') <==> c in "0123456789abcdef"
  {
    var digits := "0123456789abcdefABCDEF";
    var lower := "0123456789abcdef";
    if '0' <= c <= '9' {
      assert digits[c as int - '0' as int] == c && lower[c as int - '0' as int] == c;
    } else if 'a' <= c <= 'f' {
      assert digits[c as int - 'a' as int + 10] == c && lower[c as int - 'a' as int + 10] == c;
    } else if 'A' <= c <= 'F' {
      assert digits[c as int - 'A' as int + 16] == c;
    }
  }

  /** SHAs are 40 to 64 hexadecimal digits, computed digests 64 lower-case ones. */
  lemma HexTexts(s: string)
    ensures ValidSha(s) <==> ShaText(s)
    ensures ComputedDigest(s) <==> |s| == 64 && forall c :: c in s ==> c in "0123456789abcdef"
  {
    forall c
      ensures ('0' <= c <= '9' || 'a' <= c <= 'f' || 'A' <= c <= 'F') <==> c in "0123456789abcdefABCDEF"
      ensures ('0' <= c <= '9' || 'a' <= c <= 'f') <==> c in "0123456789abcdef"
    {
      HexDigit(c);
    }
    LowerCaseDigest(s);
  }

  lemma LowerCaseDigest(s: string)
    ensures ComputedDigest(s) <==> |s| == 64 && forall c :: c in s ==> '0' <= c <= '9' || 'a' <= c <= 'f'
  {
    if ComputedDigest(s) {
      forall c | c in s
        ensures '0' <= c <= '9' || 'a' <= c <= 'f'
      {
        var i :| 0 <= i < |s| && s[i] == c;
        assert Lower(s)[i] == s[i];
      }
    }
    if |s| == 64 && forall c :: c in s ==> '0' <= c <= '9' || 'a' <= c <= 'f' {
      assert forall i :: 0 <= i < |s| ==> s[i] in s;
      assert Lower(s) == s;
    }
  }

  /** What makes a row readable as provenance, in full. */
  lemma ValidRecordExactly(r: Row, formats: bool)
    ensures ValidRecord(r, formats) <==>
      && formats
      && r.identity.repo != ""
      && r.identity.version != ""
      && r.identity.sourceTag == r.identity.version
      && ShaText(r.identity.buildRef)
      && r.selector != ""
      && ShaText(r.githubRef)
      && r.identity.assetsRelease == "offline-assets-" + r.identity.version
      && r.identity.assetsReleaseId > 0
      && r.dispatch.provider != ""
      && r.dispatch.workflow != ""
      && r.dispatch.artifactName != ""
      && r.dispatch.runUrl != ""
      && r.dispatch.htmlUrl != ""
      && r.runId > 0
      && r.artifactId >= 0
      && (r.sourceSha != "" ==> ShaText(r.sourceSha) && CaseOnly(r.sourceSha, r.githubRef))
  {
    HexTexts(r.identity.buildRef);
    HexTexts(r.githubRef);
    HexTexts(r.sourceSha);
    LowerIsCaseOnly(r.sourceSha, r.githubRef);
    hide ValidSha, ShaText, Lower, CaseOnly, ComputedDigest;
  }

  lemma MarkedIffDigest(s: State, id: nat)
    requires Valid(s) && id in s.rows
    ensures s.rows[id].marker >= 0 && (s.rows[id].marker > 0 <==> s.rows[id].digest != "")
  {
    hide Lower, Hex;
    assert GoodRow(s.rows[id]);
  }

  lemma MatchIsEqual(s: State, id: nat, digest: string)
    requires Valid(s) && id in s.rows && ComputedDigest(digest)
    ensures s.rows[id].marker > 0 ==> (DigestMatches(s.rows[id].digest, digest) <==> s.rows[id].digest == digest)
  {
    hide Hex;
    if s.rows[id].marker > 0 && DigestMatches(s.rows[id].digest, digest) { StoredIsComputed(s, id, digest); }
  }

  lemma StoredIsComputed(s: State, id: nat, digest: string)
    requires Valid(s) && id in s.rows && s.rows[id].marker > 0 && ComputedDigest(digest) && DigestMatches(s.rows[id].digest, digest)
    ensures s.rows[id].digest == digest
  {
    assert GoodRow(s.rows[id]);
  }

  lemma CallIsGood(s: State, call: nat)
    requires Valid(s) && call in s.calls
    ensures GoodCall(s, s.calls[call])
  {}

  // ---------------------------------------------------------------- drafts are not protected

  const SHA: string := seq(40, _ => 'a')

  const DISPATCHED := Provenance(Identity("1.0.0", SHA, "1.0.0", ASSETS_PREFIX + "1.0.0", 7, "", "o/r"), "main", SHA, SHA,
                                 Dispatch("github", "w", "a", "u", "h"), 5, 0, "")

  const DRAFT := Edit("", "", "", "", "")
  const EDITED := Edit("", "", "9", "", "")

  lemma DispatchedIsValid()
    ensures ValidProvenance(DISPATCHED, true)
  {
    assert Hex(SHA) && ValidSha(SHA);
  }

  /** The state in which an edit has read a draft that is about to be dispatched. */
  lemma DraftUnderEdit(s1: State, s2: State)
    requires s1 == Step(EMPTY, CreateDraft(1, DRAFT)).0
    requires s2 == Step(s1, EditRead(0, 1, EDITED, true)).0
    ensures s1.rows.Keys == {1} && s2 == s1.(calls := map[0 := Editing(1, EDITED)])
    ensures var r := s1.rows[1]; r.status.Pending? && r.runId == 0 && Undispatched(r, DISPATCHED)
  {
    hide ValidProvenance, Lower, BoundLog, Hex;
    assert s1.rows[1].identity == NO_IDENTITY && !ProviderBacked(s1.rows[1]);
  }

  /** A draft created without an identity is not protected: an edit that read the row before dispatch
      overwrites the version that the dispatch recorded. */
  lemma DraftEditOverwritesDispatch(s1: State, s2: State, s3: State, s4: State)
    requires s1 == Step(EMPTY, CreateDraft(1, DRAFT)).0
    requires s2 == Step(s1, EditRead(0, 1, EDITED, true)).0
    requires s3 == Step(s2, SetProvenance(1, DISPATCHED, true)).0
    requires s4 == Step(s3, EditWrite(0)).0
    ensures 1 in s3.rows && s3.rows[1].runId == 5 && s3.rows[1].identity == DISPATCHED.identity
    ensures 1 in s4.rows && s4.rows[1].runId == 5 && s4.rows[1].identity == DISPATCHED.identity.(version := "9")
  {
    hide ValidProvenance, Undispatched, Lower, BoundLog, Hex;
    DispatchedIsValid();
    DraftUnderEdit(s1, s2);
    assert s3.rows[1] == Dispatched(s1.rows[1], DISPATCHED) && s3.calls == s2.calls;
  }
}
