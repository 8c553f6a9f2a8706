/**
 The custom-build row and the service calls that change it.  Every database access is one atomic
 step and any number of calls may be in flight, so a run is an arbitrary list of events.  The
 invariants are proved for all runs, the write-once claims between any two moments of a run.
 */
module BuildLifecycle {
  import opened Wrappers

  datatype Status = Pending | Building | Downloading | Extracting | Done | Failed

  predicate Active(s: Status) { s.Building? || s.Downloading? || s.Extracting? }
  predicate Terminal(s: Status) { s.Done? || s.Failed? }

  /** The release identity columns. */
  datatype Identity = Identity(version: string, buildRef: string, sourceTag: string, assetsRelease: string,
                               assetsReleaseId: int, assets: string, repo: string)
  /** The remaining dispatch columns. */
  datatype Dispatch = Dispatch(provider: string, workflow: string, artifactName: string, runUrl: string, htmlUrl: string)

  const NO_IDENTITY := Identity("", "", "", "", 0, "", "")
  const NO_DISPATCH := Dispatch("", "", "", "", "")

  datatype Row = Row(status: Status, identity: Identity, selector: string, githubRef: string, dispatch: Dispatch,
                     runId: int, artifactId: int, sourceSha: string, marker: int, digest: string, manifest: string,
                     name: string, platform: string, appName: string, json: string, log: string, fileSize: int)

  datatype Provenance = Provenance(identity: Identity, selector: string, workflowSha: string, githubRef: string,
                                   dispatch: Dispatch, runId: int, artifactId: int, sourceSha: string)

  datatype Progress = Progress(id: nat, runId: int, artifactId: int, status: Status, log: string, fileSize: int)

  datatype Edit = Edit(name: string, platform: string, version: string, appName: string, json: string)

  /** What a call remembers between two database accesses. */
  datatype Call =
    | Recording(id: nat, runId: int, artifactId: int, digest: string, manifest: string)
    | Rechecking(id: nat, runId: int, artifactId: int, digest: string)
    | Completing(progress: Progress, observed: string)
    | Editing(id: nat, edit: Edit)

  /** `tracked` are the rows created with a resolved identity; ids in `created` are never given out again. */
  datatype State = State(rows: map<nat, Row>, created: set<nat>, tracked: set<nat>, calls: map<nat, Call>)

  type Moment = t: int | t > 0 witness 1

  /** `formats` is the outcome of the remaining fixed-format checks, `checks` also of file checks. */
  datatype Event =
    | CreateWithIdentity(id: nat, identity: Identity, selector: string, sha: string, draft: Edit, formats: bool)
    | CreateDraft(id: nat, draft: Edit)
    | SetProvenance(id: nat, p: Provenance, formats: bool)
    | SetArtifactID(id: nat, runId: int, artifactId: int)
    | SetSourceSha(id: nat, runId: int, sha: string)
    | RecordRead(call: nat, id: nat, runId: int, artifactId: int, supplied: Option<string>, output: Option<string>, checks: bool)
    | RecordWrite(call: nat, now: Moment)
    | RecordRecheck(call: nat)
    | UpdateProgress(progress: Progress)
    | CompleteRead(call: nat, progress: Progress, output: Option<string>, checks: bool)
    | CompleteWrite(call: nat)
    | UpdateNoRunFailure(progress: Progress)
    | UpdatePendingFailure(progress: Progress)
    | EditRead(call: nat, id: nat, edit: Edit, checks: bool)
    | EditWrite(call: nat)
    | Delete(id: nat)

  datatype Outcome = Ok | Error | Continue

  // ---------------------------------------------------------------- field checks

  function Lower(s: string): (r: string)
    ensures |r| == |s|
  {
    seq(|s|, i requires 0 <= i < |s| => if 'A' <= s[i] <= 'Z' then s[i] - 'A' + 'a' else s[i])
  }

  predicate Hex(s: string) {
    forall c :: c in s ==> '0' <= c <= '9' || 'a' <= c <= 'f' || 'A' <= c <= 'F'
  }

  predicate ValidSha(s: string) { 40 <= |s| <= 64 && Hex(s) }

  predicate ValidDigest(s: string) { |s| == 64 && Hex(s) }

  /** The form in which a freshly computed digest is printed. */
  predicate ComputedDigest(s: string) { ValidDigest(s) && Lower(s) == s }

  predicate DigestMatches(stored: string, computed: string) {
    ValidDigest(stored) && ValidDigest(computed) && Lower(stored) == Lower(computed)
  }

  const ASSETS_PREFIX := "offline-assets-"

  predicate ValidIdentity(i: Identity, selector: string, sha: string, formats: bool) {
    && formats && i.repo != "" && i.version != "" && i.sourceTag == i.version
    && ValidSha(i.buildRef) && selector != "" && ValidSha(sha)
    && i.assetsRelease == ASSETS_PREFIX + i.version && i.assetsReleaseId > 0
  }

  predicate Complete(d: Dispatch) {
    d.provider != "" && d.workflow != "" && d.artifactName != "" && d.runUrl != "" && d.htmlUrl != ""
  }

  /** BuildProvenance.validate; an empty execution SHA falls back to the reference. */
  predicate ValidProvenance(p: Provenance, formats: bool) {
    var sha := if p.workflowSha == "" then p.githubRef else p.workflowSha;
    && (p.workflowSha != "" && p.githubRef != "" ==> Lower(p.workflowSha) == Lower(p.githubRef))
    && ValidIdentity(p.identity, p.selector, sha, formats) && Complete(p.dispatch) && p.runId > 0
    && (p.sourceSha != "" ==> ValidSha(p.sourceSha) && Lower(p.sourceSha) == Lower(sha))
    && p.artifactId >= 0
  }

  /** BuildProvenanceFromRecord succeeds. */
  predicate ValidRecord(r: Row, formats: bool) {
    ValidProvenance(Provenance(r.identity, r.selector, r.githubRef, r.githubRef, r.dispatch, r.runId, r.artifactId, r.sourceSha), formats)
  }

  predicate ProviderBacked(r: Row) {
    || r.identity.buildRef != "" || r.identity.sourceTag != "" || r.identity.assetsRelease != ""
    || r.identity.assetsReleaseId != 0 || r.identity.assets != "" || r.identity.repo != ""
    || r.selector != "" || r.githubRef != "" || r.dispatch != NO_DISPATCH
    || r.runId != 0 || r.artifactId != 0 || r.sourceSha != ""
  }

  const MAX_LOG := 4096

  function BoundLog(existing: string, message: string): (r: string)
    ensures |r| <= MAX_LOG
  {
    var all := if message == "" then existing else if existing == "" then message else existing + "\n" + message;
    if |all| <= MAX_LOG then all else all[|all| - MAX_LOG..]
  }

  // ---------------------------------------------------------------- guards of the conditional updates

  predicate Undispatched(r: Row, p: Provenance) {
    && r.status.Pending? && r.runId == 0
    && (r.identity.(assets := "") == NO_IDENTITY || r.identity == p.identity)
    && (r.selector == "" || r.selector == p.selector)
    && (r.githubRef == "" || Lower(r.githubRef) == Lower(p.workflowSha))
    && r.dispatch == NO_DISPATCH && r.artifactId == 0 && r.sourceSha == ""
  }

  predicate ActiveRun(s: State, id: nat, runId: int) {
    id in s.rows && Active(s.rows[id].status) && s.rows[id].runId == runId
  }

  predicate ActiveArtifact(s: State, id: nat, runId: int, artifactId: int) {
    ActiveRun(s, id, runId) && s.rows[id].artifactId == artifactId
  }

  function Put(s: State, id: nat, r: Row): State { s.(rows := s.rows[id := r]) }

  function Hold(s: State, call: nat, c: Call): State { s.(calls := s.calls[call := c]) }

  function Drop(s: State, call: nat): State { s.(calls := s.calls - {call}) }

  function Report(r: Row, p: Progress): Row {
    r.(status := p.status, log := BoundLog(p.log, ""), fileSize := p.fileSize)
  }

  function Dispatched(r: Row, p: Provenance): Row {
    r.(status := Building, identity := p.identity, selector := p.selector, githubRef := p.workflowSha,
       dispatch := p.dispatch, runId := p.runId, log := BoundLog("", "github run id"))
  }

  // ---------------------------------------------------------------- one step

  function Step(s: State, e: Event): (State, Outcome) {
    match e
    case CreateWithIdentity(id, identity, selector, sha, d, formats) =>
      if id == 0 || id in s.created || !ValidIdentity(identity, selector, sha, formats)
         || (d.version != "" && d.version != identity.version) then (s, Error)
      else
        var r := Row(Pending, identity, selector, sha, NO_DISPATCH, 0, 0, "", 0, "", "", d.name, d.platform, d.appName, d.json, "", 0);
        (Put(s, id, r).(created := s.created + {id}, tracked := s.tracked + {id}), Ok)
    case CreateDraft(id, d) =>
      if id == 0 || id in s.created then (s, Error)
      else
        var r := Row(Pending, NO_IDENTITY.(version := d.version), "", "", NO_DISPATCH, 0, 0, "", 0, "", "", d.name, d.platform, d.appName, d.json, "", 0);
        (Put(s, id, r).(created := s.created + {id}), Ok)
    case SetProvenance(id, p, formats) =>
      if id == 0 || !ValidProvenance(p, formats) || id !in s.rows || !Undispatched(s.rows[id], p) then (s, Error)
      else (Put(s, id, Dispatched(s.rows[id], p)), Ok)
    case SetArtifactID(id, runId, artifactId) =>
      if id == 0 || runId <= 0 || artifactId <= 0 || !ActiveRun(s, id, runId) || s.rows[id].artifactId != 0 then (s, Error)
      else (Put(s, id, s.rows[id].(artifactId := artifactId)), Ok)
    case SetSourceSha(id, runId, sha) =>
      if id == 0 || runId <= 0 || !ValidSha(sha) || !ActiveRun(s, id, runId)
         || Lower(s.rows[id].githubRef) != Lower(sha) || s.rows[id].sourceSha != "" then (s, Error)
      else (Put(s, id, s.rows[id].(sourceSha := sha)), Ok)
    case RecordRead(call, id, runId, artifactId, supplied, output, checks) =>
      if call in s.calls || id == 0 || runId <= 0 || artifactId <= 0 || !ActiveArtifact(s, id, runId, artifactId) then (s, Error)
      else
        var r := s.rows[id];
        if !ValidRecord(r, checks) || (supplied.Some? && r.manifest != "" && supplied.value != r.manifest)
           || output.None? || !ComputedDigest(output.value) then (s, Error)
        else if r.marker > 0 || r.digest != "" then
          (s, if r.marker > 0 && DigestMatches(r.digest, output.value) then Ok else Error)
        else
          var m := if supplied.Some? then supplied.value else r.manifest;
          (Hold(s, call, Recording(id, runId, artifactId, output.value, m)), Continue)
    case RecordWrite(call, now) =>
      if call !in s.calls || !s.calls[call].Recording? then (s, Error)
      else
        var c := s.calls[call];
        if ActiveArtifact(s, c.id, c.runId, c.artifactId) && s.rows[c.id].marker == 0 && s.rows[c.id].digest == "" then
          var r := s.rows[c.id];
          (Drop(Put(s, c.id, r.(marker := now, digest := c.digest, manifest := if c.manifest != "" then c.manifest else r.manifest)), call), Ok)
        else (Hold(s, call, Rechecking(c.id, c.runId, c.artifactId, c.digest)), Continue)
    case RecordRecheck(call) =>
      if call !in s.calls || !s.calls[call].Rechecking? then (s, Error)
      else
        var c := s.calls[call];
        (Drop(s, call),
         if ActiveArtifact(s, c.id, c.runId, c.artifactId) && s.rows[c.id].marker > 0 && s.rows[c.id].digest != ""
            && DigestMatches(s.rows[c.id].digest, c.digest) then Ok else Error)
    case UpdateProgress(p) =>
      if p.id == 0 || p.runId <= 0 || p.status.Pending? || p.status.Done? || !ActiveRun(s, p.id, p.runId) then (s, Error)
      else (Put(s, p.id, Report(s.rows[p.id], p)), Ok)
    case CompleteRead(call, p, output, checks) =>
      if call in s.calls || p.id == 0 || p.runId <= 0 || !p.status.Done? || p.artifactId <= 0 || p.id !in s.rows then (s, Error)
      else
        var r := s.rows[p.id];
        if !ValidRecord(r, checks) || r.runId != p.runId || r.artifactId != p.artifactId || r.marker <= 0
           || output.None? || !DigestMatches(r.digest, output.value) then (s, Error)
        else (Hold(s, call, Completing(p, output.value)), Continue)
    case CompleteWrite(call) =>
      if call !in s.calls || !s.calls[call].Completing? then (s, Error)
      else
        var p := s.calls[call].progress;
        if ActiveArtifact(s, p.id, p.runId, p.artifactId) && p.artifactId > 0 && s.rows[p.id].marker > 0 && s.rows[p.id].digest != "" then
          (Drop(Put(s, p.id, Report(s.rows[p.id], p)), call), Ok)
        else (Drop(s, call), Error)
    case UpdateNoRunFailure(p) =>
      if p.id == 0 || p.runId != 0 || !p.status.Failed? || !ActiveRun(s, p.id, 0) then (s, Error)
      else (Put(s, p.id, Report(s.rows[p.id], p)), Ok)
    case UpdatePendingFailure(p) =>
      if p.id == 0 || p.runId != 0 || !p.status.Failed? || p.id !in s.rows
         || !s.rows[p.id].status.Pending? || s.rows[p.id].runId != 0 then (s, Error)
      else (Put(s, p.id, Report(s.rows[p.id], p)), Ok)
    case EditRead(call, id, edit, checks) =>
      if call in s.calls || id == 0 || id !in s.rows then (s, Error)
      else
        var r := s.rows[id];
        if !checks || (ProviderBacked(r) && (edit.platform != r.platform || edit.appName != r.appName || edit.version != r.identity.version))
        then (s, Error)
        else (Hold(s, call, Editing(id, edit)), Continue)
    case EditWrite(call) =>
      if call !in s.calls || !s.calls[call].Editing? then (s, Error)
      else
        var id, d := s.calls[call].id, s.calls[call].edit;
        if id !in s.rows then (Drop(s, call), Error)
        else
          var r := s.rows[id];
          (Drop(Put(s, id, r.(name := d.name, platform := d.platform, identity := r.identity.(version := d.version), appName := d.appName, json := d.json)), call), Ok)
    case Delete(id) => (s.(rows := s.rows - {id}), Ok)
  }

  function Run(s: State, es: seq<Event>): State
    decreases |es|
  {
    if es == [] then s else Run(Step(s, es[0]).0, es[1..])
  }

  const EMPTY := State(map[], {}, {}, map[])

  // ---------------------------------------------------------------- invariants

  ghost predicate GoodRow(r: Row) {
    && r.artifactId >= 0 && r.marker >= 0
    && (r.status.Pending? ==> r.runId == 0)
    && (Active(r.status) || r.status.Done? ==> r.runId > 0)
    && (r.artifactId != 0 ==> r.runId > 0)
    && (r.marker > 0 <==> r.digest != "")
    && (r.marker > 0 ==> r.artifactId > 0 && ComputedDigest(r.digest))
    && (r.manifest != "" ==> r.marker > 0)
    && (r.sourceSha != "" ==> r.runId > 0 && Lower(r.sourceSha) == Lower(r.githubRef))
    && (r.status.Done? ==> r.marker > 0)
  }

  ghost predicate GoodCall(s: State, c: Call) {
    match c
    case Recording(id, runId, artifactId, digest, _) => runId > 0 && artifactId > 0 && ComputedDigest(digest)
    case Rechecking(id, runId, artifactId, digest) => runId > 0 && artifactId > 0 && ComputedDigest(digest)
    case Completing(p, observed) =>
      p.status.Done? && p.artifactId > 0
      && (p.id in s.rows ==> s.rows[p.id].runId > 0 && s.rows[p.id].marker > 0 && DigestMatches(s.rows[p.id].digest, observed))
    case Editing(id, edit) => (id in s.tracked && id in s.rows ==> edit.version == s.rows[id].identity.version)
  }

  /** A row created with an identity can be dispatched, and once dispatched reads back as valid provenance. */
  ghost predicate TrackedRow(r: Row) {
    && ValidIdentity(r.identity, r.selector, r.githubRef, true)
    && (r.runId > 0 ==> Complete(r.dispatch))
    && (r.sourceSha != "" ==> ValidSha(r.sourceSha))
  }

  ghost predicate GoodCalls(s: State) {
    forall call :: call in s.calls ==> GoodCall(s, s.calls[call]) && CallId(s.calls[call]) in s.created
  }

  ghost predicate GoodRows(s: State) {
    && s.rows.Keys <= s.created && s.tracked <= s.created
    && (forall id :: id in s.rows ==> GoodRow(s.rows[id]))
    && (forall id :: id in s.rows && id in s.tracked ==> TrackedRow(s.rows[id]))
  }

  ghost predicate Valid(s: State) { GoodRows(s) && GoodCalls(s) }

  function CallId(c: Call): nat {
    if c.Completing? then c.progress.id else c.id
  }

  /** What a later version of a row still has in common with an earlier one. */
  ghost predicate Keeps(r: Row, r': Row) {
    && (r.runId != 0 ==> r'.runId == r.runId)
    && (r.artifactId != 0 ==> r'.artifactId == r.artifactId)
    && (r.sourceSha != "" ==> r'.sourceSha == r.sourceSha)
    && (r.marker != 0 ==> r'.marker == r.marker && r'.digest == r.digest && r'.manifest == r.manifest)
    && (Terminal(r.status) ==> r'.status == r.status)
    && (r'.status.Pending? ==> r.status.Pending?)
  }

  ghost predicate SameIdentity(r: Row, r': Row) {
    r'.identity == r.identity && r'.selector == r.selector && Lower(r'.githubRef) == Lower(r.githubRef)
  }

  ghost predicate Extends(s: State, s': State) {
    && s.created <= s'.created && s.tracked <= s'.tracked
    && (forall id :: id in s.created && id in s'.rows ==> id in s.rows && Keeps(s.rows[id], s'.rows[id]))
    && (forall id :: id in s.created && id in s'.tracked ==> id in s.tracked)
    && (forall id :: id in s.tracked && id in s.rows && id in s'.rows ==> SameIdentity(s.rows[id], s'.rows[id]))
  }

  // ---------------------------------------------------------------- every step keeps the invariants

  lemma Unchanged(s: State)
    requires Valid(s)
    ensures Extends(s, s)
  {}

  /** Calls stay good while rows only extend and new ids are new. */
  lemma CallsStayGood(s: State, s': State, c: Call)
    requires GoodCall(s, c) && CallId(c) in s.created && Extends(s, s')
    ensures GoodCall(s', c) && CallId(c) in s'.created
  {
    hide Lower, Hex, GoodRow;
    var id := CallId(c);
    if id in s'.rows { assert Keeps(s.rows[id], s'.rows[id]); }
  }

  lemma SameCalls(s: State, s': State)
    requires GoodCalls(s) && Extends(s, s') && s'.calls.Keys <= s.calls.Keys
    requires forall k :: k in s'.calls ==> s'.calls[k] == s.calls[k]
    ensures GoodCalls(s')
  {
    hide GoodCall, Extends;
    forall k | k in s'.calls { CallsStayGood(s, s', s.calls[k]); }
  }

  lemma UpdateKeeps(s: State, id: nat, r': Row)
    requires Valid(s) && id in s.rows && GoodRow(r') && Keeps(s.rows[id], r')
    requires id in s.tracked ==> SameIdentity(s.rows[id], r') && TrackedRow(r')
    ensures Valid(Put(s, id, r')) && Extends(s, Put(s, id, r'))
  {
    hide GoodRow, GoodCalls, TrackedRow, Lower;
    SameCalls(s, Put(s, id, r'));
  }

  lemma InsertKeeps(s: State, id: nat, r: Row, track: bool)
    requires Valid(s) && id !in s.created && GoodRow(r) && (track ==> TrackedRow(r))
    ensures var s' := Put(s, id, r).(created := s.created + {id}, tracked := if track then s.tracked + {id} else s.tracked);
            Valid(s') && Extends(s, s')
  {
    hide GoodRow, GoodCalls, TrackedRow, Lower;
    SameCalls(s, Put(s, id, r).(created := s.created + {id}, tracked := if track then s.tracked + {id} else s.tracked));
  }

  lemma HoldKeeps(s: State, call: nat, c: Call)
    requires Valid(s) && GoodCall(s, c) && CallId(c) in s.created
    ensures Valid(Hold(s, call, c)) && Extends(s, Hold(s, call, c))
  {
    hide GoodRow, GoodCall, TrackedRow, Lower;
    var s' := Hold(s, call, c);
    forall k | k in s'.calls ensures GoodCall(s', s'.calls[k]) && CallId(s'.calls[k]) in s'.created {
      CallsStayGood(s, s', if k == call then c else s.calls[k]);
    }
  }

  lemma DropKeeps(s0: State, s: State, call: nat)
    requires Valid(s) && Extends(s0, s)
    ensures Valid(Drop(s, call)) && Extends(s0, Drop(s, call))
  {
    hide GoodRow, GoodCalls, TrackedRow, Lower;
    SameCalls(s, Drop(s, call));
  }

  lemma DeleteKeeps(s: State, id: nat)
    requires Valid(s)
    ensures Valid(s.(rows := s.rows - {id})) && Extends(s, s.(rows := s.rows - {id}))
  {
    hide GoodRow, GoodCalls, TrackedRow, Lower;
    SameCalls(s, s.(rows := s.rows - {id}));
  }

  /** A dispatch can only confirm a tracked identity, never replace it. */
  lemma DispatchKeeps(s: State, id: nat, p: Provenance, formats: bool)
    requires Valid(s) && id in s.rows && ValidProvenance(p, formats) && Undispatched(s.rows[id], p)
    ensures Valid(Put(s, id, Dispatched(s.rows[id], p))) && Extends(s, Put(s, id, Dispatched(s.rows[id], p)))
  {
    var r, r' := s.rows[id], Dispatched(s.rows[id], p);
    if id in s.tracked {
      assert TrackedRow(r) && |r.identity.buildRef| >= 40;
      assert r.identity == p.identity;
      assert |Lower(r.githubRef)| == |r.githubRef| > 0;
    }
    UpdateKeeps(s, id, r');
  }

  /** A user edit of a tracked row writes back the version it read, so no dispatch in between is lost. */
  lemma EditKeeps(s: State, call: nat)
    requires Valid(s) && call in s.calls && s.calls[call].Editing?
    ensures var s' := Step(s, EditWrite(call)).0; Valid(s') && Extends(s, s')
  {
    hide ValidProvenance, Lower, Hex, Extends;
    var id, d := s.calls[call].id, s.calls[call].edit;
    assert GoodCall(s, s.calls[call]);
    if id in s.rows {
      var r := s.rows[id];
      var r' := r.(name := d.name, platform := d.platform, identity := r.identity.(version := d.version), appName := d.appName, json := d.json);
      if id in s.tracked { assert TrackedRow(r); }
      UpdateKeeps(s, id, r');
      DropKeeps(s, Put(s, id, r'), call);
    } else {
      Unchanged(s);
      DropKeeps(s, s, call);
    }
  }

  lemma RecordKeeps(s: State, call: nat, now: Moment)
    requires Valid(s) && call in s.calls && s.calls[call].Recording?
    ensures var s' := Step(s, RecordWrite(call, now)).0; Valid(s') && Extends(s, s')
  {
    hide ValidProvenance, Lower, Hex, Extends;
    var c := s.calls[call];
    assert GoodCall(s, c);
    if ActiveArtifact(s, c.id, c.runId, c.artifactId) && s.rows[c.id].marker == 0 && s.rows[c.id].digest == "" {
      var r := s.rows[c.id];
      var r' := r.(marker := now, digest := c.digest, manifest := if c.manifest != "" then c.manifest else r.manifest);
      if c.id in s.tracked { assert TrackedRow(r); }
      UpdateKeeps(s, c.id, r');
      DropKeeps(s, Put(s, c.id, r'), call);
    } else {
      HoldKeeps(s, call, Rechecking(c.id, c.runId, c.artifactId, c.digest));
    }
  }

  lemma CompleteKeeps(s: State, call: nat)
    requires Valid(s) && call in s.calls && s.calls[call].Completing?
    ensures var s' := Step(s, CompleteWrite(call)).0; Valid(s') && Extends(s, s')
  {
    hide ValidProvenance, Lower, Hex, Extends;
    var p := s.calls[call].progress;
    assert GoodCall(s, s.calls[call]);
    if ActiveArtifact(s, p.id, p.runId, p.artifactId) && p.artifactId > 0 && s.rows[p.id].marker > 0 && s.rows[p.id].digest != "" {
      if p.id in s.tracked { assert TrackedRow(s.rows[p.id]); }
      UpdateKeeps(s, p.id, Report(s.rows[p.id], p));
      DropKeeps(s, Put(s, p.id, Report(s.rows[p.id], p)), call);
    } else {
      Unchanged(s);
      DropKeeps(s, s, call);
    }
  }

  lemma ReportKeeps(s: State, p: Progress)
    requires Valid(s) && p.id in s.rows && !Terminal(s.rows[p.id].status) && !p.status.Done? && !p.status.Pending?
    requires s.rows[p.id].runId > 0 || p.status.Failed?
    ensures var s' := Put(s, p.id, Report(s.rows[p.id], p)); Valid(s') && Extends(s, s')
  {
    if p.id in s.tracked { assert TrackedRow(s.rows[p.id]); }
    UpdateKeeps(s, p.id, Report(s.rows[p.id], p));
  }

  lemma CreateKeeps(s: State, e: Event)
    requires Valid(s) && (e.CreateWithIdentity? || e.CreateDraft?) && Step(s, e).1.Ok?
    ensures Valid(Step(s, e).0) && Extends(s, Step(s, e).0)
  {
    hide Hex, Extends, GoodCalls, GoodRows;
    InsertKeeps(s, e.id, Step(s, e).0.rows[e.id], e.CreateWithIdentity?);
  }

  lemma ReadKeeps(s: State, e: Event)
    requires Valid(s) && (e.RecordRead? || e.CompleteRead? || e.EditRead?) && Step(s, e).1.Continue?
    ensures Valid(Step(s, e).0) && Extends(s, Step(s, e).0)
  {
    hide Lower, Hex, Extends, ValidRecord;
    match e
    case EditRead(call, id, edit, checks) =>
      if id in s.tracked { assert |s.rows[id].identity.buildRef| >= 40; }
      HoldKeeps(s, call, Editing(id, edit));
    case CompleteRead(call, p, output, checks) => HoldKeeps(s, call, Completing(p, output.value));
    case RecordRead(call, id, runId, artifactId, supplied, output, checks) =>
      HoldKeeps(s, call, Recording(id, runId, artifactId, output.value, if supplied.Some? then supplied.value else s.rows[id].manifest));
  }

  lemma StepKeeps(s: State, e: Event)
    requires Valid(s)
    ensures Valid(Step(s, e).0) && Extends(s, Step(s, e).0)
  {
    hide Lower, Hex, Keeps, SameIdentity, ValidRecord, GoodCalls, GoodRows, GoodRow, Extends;
    if Step(s, e).0 == s {
      Unchanged(s);
    } else {
      match e
      case CreateWithIdentity(_, _, _, _, _, _) => CreateKeeps(s, e);
      case CreateDraft(_, _) => CreateKeeps(s, e);
      case SetProvenance(id, p, formats) => DispatchKeeps(s, id, p, formats);
      case SetArtifactID(_, _, _) => FieldKeeps(s, e);
      case SetSourceSha(_, _, _) => FieldKeeps(s, e);
      case RecordRead(_, _, _, _, _, _, _) => ReadKeeps(s, e);
      case RecordWrite(call, now) => RecordKeeps(s, call, now);
      case RecordRecheck(call) => Unchanged(s); DropKeeps(s, s, call);
      case UpdateProgress(p) => ReportKeeps(s, p);
      case CompleteRead(_, _, _, _) => ReadKeeps(s, e);
      case CompleteWrite(call) => CompleteKeeps(s, call);
      case UpdateNoRunFailure(p) => ReportKeeps(s, p);
      case UpdatePendingFailure(p) => ReportKeeps(s, p);
      case EditRead(_, _, _, _) => ReadKeeps(s, e);
      case EditWrite(call) => EditKeeps(s, call);
      case Delete(id) => DeleteKeeps(s, id);
    }
  }

  lemma FieldKeeps(s: State, e: Event)
    requires Valid(s) && (e.SetArtifactID? || e.SetSourceSha?)
    ensures Valid(Step(s, e).0) && Extends(s, Step(s, e).0)
  {
    hide Hex;
    if Step(s, e).1.Ok? {
      var id := e.id;
      if id in s.tracked { assert TrackedRow(s.rows[id]); }
      UpdateKeeps(s, id, Step(s, e).0.rows[id]);
    }
  }

  lemma ExtendsTransitive(a: State, b: State, c: State)
    requires Valid(a) && Valid(b) && Valid(c) && Extends(a, b) && Extends(b, c)
    ensures Extends(a, c)
  {
    hide Lower, GoodRow, GoodCall;
    forall id | id in a.created && id in c.rows
      ensures id in a.rows && Keeps(a.rows[id], c.rows[id])
    {
      assert id in b.created && id in b.rows;
      assert Keeps(a.rows[id], b.rows[id]) && Keeps(b.rows[id], c.rows[id]);
    }
    forall id | id in a.tracked && id in a.rows && id in c.rows
      ensures SameIdentity(a.rows[id], c.rows[id])
    {
      assert id in b.tracked && id in b.rows;
    }
  }

  /** Whatever the interleaving, the invariants hold at the end and nothing write-once was lost. */
  lemma {:induction false} RunKeeps(s: State, es: seq<Event>)
    requires Valid(s)
    ensures Valid(Run(s, es)) && Extends(s, Run(s, es))
    decreases |es|
  {
    if es == [] {
      Unchanged(s);
    } else {
      hide Step, GoodRow, GoodCall, Keeps;
      StepKeeps(s, es[0]);
      RunKeeps(Step(s, es[0]).0, es[1..]);
      ExtendsTransitive(s, Step(s, es[0]).0, Run(s, es));
    }
  }

  lemma {:induction false} RunSplit(s: State, es: seq<Event>, k: nat)
    requires k <= |es|
    ensures Run(s, es) == Run(Run(s, es[..k]), es[k..])
    decreases k
  {
    if k > 0 {
      RunSplit(Step(s, es[0]).0, es[1..], k - 1);
      assert es[..k][1..] == es[1..][..k - 1] && es[1..][k - 1..] == es[k..];
    } else {
      assert es[0..] == es;
    }
  }

  // ---------------------------------------------------------------- what a reader may rely on

  /** Between any two moments of any run: each write-once column, once set, keeps its value, done and
      failed are absorbing, pending is never re-entered, and a tracked identity never changes. */
  lemma WriteOnce(es: seq<Event>, k: nat, id: nat)
    requires k <= |es|
    requires id in Run(EMPTY, es[..k]).rows && id in Run(EMPTY, es).rows
    ensures Keeps(Run(EMPTY, es[..k]).rows[id], Run(EMPTY, es).rows[id])
    ensures id in Run(EMPTY, es[..k]).tracked ==> SameIdentity(Run(EMPTY, es[..k]).rows[id], Run(EMPTY, es).rows[id])
  {
    hide Step;
    RunKeeps(EMPTY, es[..k]);
    RunSplit(EMPTY, es, k);
    RunKeeps(Run(EMPTY, es[..k]), es[k..]);
  }

  /** Every done row was dispatched, has an artifact, and carries a marker with a well-formed digest;
      an undispatched row is never active, so the no-run failure path cannot fire. */
  lemma DoneIsPublished(es: seq<Event>, id: nat)
    requires id in Run(EMPTY, es).rows
    ensures var r := Run(EMPTY, es).rows[id];
            && (r.status.Done? ==> r.runId > 0 && r.artifactId > 0 && r.marker > 0 && ComputedDigest(r.digest))
            && (r.sourceSha != "" ==> Lower(r.sourceSha) == Lower(r.githubRef))
            && (Active(r.status) ==> r.runId > 0)
            && forall p: Progress :: p.id == id ==> Step(Run(EMPTY, es), UpdateNoRunFailure(p)).1.Error?
  {
    hide Lower;
    RunKeeps(EMPTY, es);
    assert GoodRow(Run(EMPTY, es).rows[id]);
  }

  /** A row created with an identity stays readable as provenance from its dispatch on, done rows included. */
  lemma TrackedRecordIsValid(es: seq<Event>, id: nat)
    requires var s := Run(EMPTY, es); id in s.tracked && id in s.rows && s.rows[id].runId > 0
    ensures ValidRecord(Run(EMPTY, es).rows[id], true)
  {
    hide Lower, Hex;
    RunKeeps(EMPTY, es);
    var r := Run(EMPTY, es).rows[id];
    assert GoodRow(r) && TrackedRow(r);
  }

  // ---------------------------------------------------------------- how long a dispatched identity lasts

  /** An edit that read the row before and will write another version. */
  ghost predicate StaleEdit(s: State, id: nat, version: string) {
    exists c :: c in s.calls && s.calls[c].Editing? && s.calls[c].id == id && s.calls[c].edit.version != version
  }

  /** The row is gone for good, or dispatched with this identity and out of reach of edits. */
  ghost predicate Settled(s: State, id: nat, identity: Identity) {
    && id in s.created
    && (id in s.rows ==> s.rows[id].runId > 0 && s.rows[id].identity == identity)
    && !StaleEdit(s, id, identity.version)
  }

  predicate Overwritten(s: State, id: nat, identity: Identity) { id in s.rows && s.rows[id].identity != identity }

  lemma StepSettled(s: State, e: Event, id: nat, identity: Identity)
    requires Settled(s, id, identity)
    ensures Settled(Step(s, e).0, id, identity)
  {
    hide ValidRecord, ValidProvenance, ValidIdentity, DigestMatches, ComputedDigest, ValidSha, Lower, BoundLog;
    var s' := Step(s, e).0;
    forall c | c in s'.calls && s'.calls[c].Editing? && s'.calls[c].id == id
      ensures s'.calls[c].edit.version == identity.version
    {
      if c in s.calls && s.calls[c] == s'.calls[c] { assert !StaleEdit(s, id, identity.version); }
    }
  }

  lemma {:induction false} RunSettled(s: State, es: seq<Event>, id: nat, identity: Identity)
    requires Settled(s, id, identity)
    ensures Settled(Run(s, es), id, identity)
    decreases |es|
  {
    if es != [] {
      hide Settled, Step;
      StepSettled(s, es[0], id, identity);
      RunSettled(Step(s, es[0]).0, es[1..], id, identity);
    }
  }

  /** Some continuation leaves the row with another identity. */
  ghost predicate CanLose(s: State, id: nat, identity: Identity) { exists es :: Overwritten(Run(s, es), id, identity) }

  lemma EditLoses(s: State, c: nat, id: nat, identity: Identity)
    requires id in s.rows && c in s.calls && s.calls[c].Editing? && s.calls[c].id == id && s.calls[c].edit.version != identity.version
    ensures CanLose(s, id, identity)
  {
    var s' := Step(s, EditWrite(c)).0;
    var es := [EditWrite(c)];
    assert es[1..] == [] && Run(s', []) == s';
    assert Run(s, es) == s';
    assert s'.rows[id].identity.version == s.calls[c].edit.version;
    assert Overwritten(Run(s, es), id, identity);
  }

  /** A dispatched identity can be lost in some continuation if and only if, at the dispatch, an edit that read the row
      before holds another version. */
  lemma DispatchLastsExactly(s: State, id: nat, p: Provenance, formats: bool)
    requires Valid(s) && Step(s, SetProvenance(id, p, formats)).1.Ok?
    ensures CanLose(Step(s, SetProvenance(id, p, formats)).0, id, p.identity) <==> StaleEdit(s, id, p.identity.version)
  {
    hide ValidIdentity, Lower, GoodRow, GoodCalls, Run;
    var s' := Step(s, SetProvenance(id, p, formats)).0;
    if StaleEdit(s, id, p.identity.version) {
      var c :| c in s.calls && s.calls[c].Editing? && s.calls[c].id == id && s.calls[c].edit.version != p.identity.version;
      EditLoses(s', c, id, p.identity);
    } else {
      assert Settled(s', id, p.identity);
      forall es { RunSettled(s', es, id, p.identity); }
    }
  }

  /** The digest that a recording call computed. */
  function Computed(s: State, e: Event): Option<string> {
    match e
    case RecordRead(_, _, _, _, _, output, _) => output
    case RecordWrite(call, _) => if call in s.calls && s.calls[call].Recording? then Some(s.calls[call].digest) else None
    case RecordRecheck(call) => if call in s.calls && s.calls[call].Rechecking? then Some(s.calls[call].digest) else None
    case _ => None
  }

  function Recorded(s: State, e: Event): nat {
    match e
    case RecordRead(_, id, _, _, _, _, _) => id
    case RecordWrite(call, _) => if call in s.calls then CallId(s.calls[call]) else 0
    case RecordRecheck(call) => if call in s.calls then CallId(s.calls[call]) else 0
    case _ => 0
  }

  /** However a recording call succeeds, in whichever of its three accesses, the stored digest is the one it computed. */
  lemma RecordedDigestIsComputed(es: seq<Event>, e: Event)
    requires e.RecordRead? || e.RecordWrite? || e.RecordRecheck?
    requires Step(Run(EMPTY, es), e).1.Ok?
    ensures var s := Run(EMPTY, es); var s' := Step(s, e).0; var id := Recorded(s, e);
            id in s'.rows && s'.rows[id].marker > 0 && Computed(s, e) == Some(s'.rows[id].digest)
  {
    hide Hex;
    var s := Run(EMPTY, es);
    RunKeeps(EMPTY, es);
    StepKeeps(s, e);
    if !e.RecordRead? { assert GoodCall(s, s.calls[e.call]); }
  }

  /** A build is completed only when the digest the completing call saw on disk is the recorded one. */
  lemma CompletedDigestWasObserved(es: seq<Event>, call: nat)
    requires Step(Run(EMPTY, es), CompleteWrite(call)).1.Ok?
    ensures var s := Run(EMPTY, es); var c := s.calls[call]; var r := Step(s, CompleteWrite(call)).0.rows[c.progress.id];
            call in s.calls && r.status.Done? && DigestMatches(r.digest, c.observed)
  {
    hide Lower, Hex;
    var s := Run(EMPTY, es);
    RunKeeps(EMPTY, es);
    assert GoodCall(s, s.calls[call]);
  }
}
