/**
 Rendezvous on the relay: a connection that asks for a uuid either takes the one parked under it,
 or parks itself and sleeps for thirty seconds.  Each access to the shared map is one atomic step;
 any number of connections interleave.  Timers fire on time; time is in milliseconds.
 */
module RelayPairing {
  type Conn = nat

  /** How far the task of a connection got. */
  datatype Phase =
    | Deciding
    | Sleeping(since: nat)
    | Relaying(peer: Conn)
    | Finished

  datatype Task = Task(uuid: string, phase: Phase)

  datatype Relay = Relay(taker: Conn, peer: Conn)

  /** `relays` are all pairs ever joined. */
  datatype State = State(now: nat, peers: map<string, Conn>, tasks: map<Conn, Task>, relays: seq<Relay>)

  datatype Event =
    | Arrive(c: Conn, uuid: string)
    | Park(c: Conn)
    | Wake(c: Conn)
    | Close(c: Conn)
    | Tick(elapsed: nat)

  const TIMEOUT := 30_000

  function With(s: State, c: Conn, p: Phase): State
    requires c in s.tasks
  {
    s.(tasks := s.tasks[c := s.tasks[c].(phase := p)])
  }

  ghost predicate OnTime(s: State, elapsed: nat) {
    forall c :: c in s.tasks && s.tasks[c].phase.Sleeping? ==> s.now + elapsed <= s.tasks[c].phase.since + TIMEOUT
  }

  ghost function Step(s: State, e: Event): State {
    match e
    case Arrive(c, uuid) =>
      if c in s.tasks || uuid == "" then s
      else if uuid in s.peers then
        s.(peers := s.peers - {uuid}, tasks := s.tasks[c := Task(uuid, Relaying(s.peers[uuid]))],
           relays := s.relays + [Relay(c, s.peers[uuid])])
      else s.(tasks := s.tasks[c := Task(uuid, Deciding)])
    case Park(c) =>
      if c in s.tasks && s.tasks[c].phase.Deciding?
      then With(s, c, Sleeping(s.now)).(peers := s.peers[s.tasks[c].uuid := c]) else s
    case Wake(c) =>
      if c in s.tasks && s.tasks[c].phase.Sleeping? && s.now >= s.tasks[c].phase.since + TIMEOUT
      then With(s, c, Finished).(peers := s.peers - {s.tasks[c].uuid}) else s
    case Close(c) =>
      if c in s.tasks && s.tasks[c].phase.Relaying? then With(s, c, Finished) else s
    case Tick(elapsed) => if OnTime(s, elapsed) then s.(now := s.now + elapsed) else s
  }

  ghost function Run(s: State, es: seq<Event>): State
    decreases |es|
  {
    if es == [] then s else Run(Step(s, es[0]), es[1..])
  }

  const EMPTY := State(0, map[], map[], [])

  // ---------------------------------------------------------------- invariants

  predicate Parked(s: State, c: Conn) { c in s.peers.Values }

  predicate In(r: Relay, c: Conn) { r.taker == c || r.peer == c }

  /** A parked connection has its own sleeping task for the uuid it is parked under. */
  ghost predicate OwnTimer(s: State) {
    forall u :: u in s.peers ==>
      var c := s.peers[u];
      c in s.tasks && s.tasks[c].uuid == u && s.tasks[c].phase.Sleeping?
      && s.tasks[c].phase.since <= s.now <= s.tasks[c].phase.since + TIMEOUT
  }

  /** A relay joins two connections that asked for the same uuid, and neither is parked. */
  ghost predicate GoodRelay(s: State, r: Relay) {
    && r.taker != r.peer && r.taker in s.tasks && r.peer in s.tasks
    && s.tasks[r.taker].uuid == s.tasks[r.peer].uuid
    && !s.tasks[r.taker].phase.Deciding? && !s.tasks[r.peer].phase.Deciding?
    && !s.tasks[r.taker].phase.Sleeping? && !s.tasks[r.peer].phase.Relaying?
    && !Parked(s, r.taker) && !Parked(s, r.peer)
  }

  ghost predicate Disjoint(rs: seq<Relay>) {
    forall i, j, c :: 0 <= i < j < |rs| ==> !(In(rs[i], c) && In(rs[j], c))
  }

  ghost predicate Valid(s: State) {
    && OwnTimer(s) && Disjoint(s.relays)
    && (forall r :: r in s.relays ==> GoodRelay(s, r))
    && (forall c :: c in s.tasks && s.tasks[c].phase.Sleeping? ==> s.tasks[c].phase.since <= s.now <= s.tasks[c].phase.since + TIMEOUT)
  }

  lemma ArriveValid(s: State, c: Conn, uuid: string)
    requires Valid(s)
    ensures Valid(Step(s, Arrive(c, uuid)))
  {
    var s' := Step(s, Arrive(c, uuid));
    if c !in s.tasks && uuid != "" {
      forall r | r in s'.relays ensures GoodRelay(s', r) {
        if r in s.relays {
          assert GoodRelay(s, r);
          assert s'.peers.Values <= s.peers.Values;
        } else {
          assert r == Relay(c, s.peers[uuid]);
          assert forall v :: v in s.peers && s.peers[v] == r.peer ==> v == uuid;
        }
      }
      if uuid in s.peers {
        assert Parked(s, s.peers[uuid]);
        forall i, d | 0 <= i < |s.relays| && In(s.relays[i], d)
          ensures !In(Relay(c, s.peers[uuid]), d)
        {
          assert s.relays[i] in s.relays && GoodRelay(s, s.relays[i]);
        }
      }
    }
  }

  lemma ParkValid(s: State, c: Conn)
    requires Valid(s)
    ensures Valid(Step(s, Park(c)))
  {
    var s' := Step(s, Park(c));
    if s' != s {
      forall r | r in s'.relays ensures GoodRelay(s', r) {
        assert GoodRelay(s, r);
        assert forall d :: Parked(s', d) ==> Parked(s, d) || d == c;
      }
    }
  }

  lemma OtherValid(s: State, e: Event)
    requires Valid(s) && (e.Wake? || e.Close? || e.Tick?)
    ensures Valid(Step(s, e))
  {
    var s' := Step(s, e);
    if s' != s {
      forall r | r in s'.relays ensures GoodRelay(s', r) {
        assert GoodRelay(s, r);
        assert s'.peers.Values <= s.peers.Values;
      }
    }
  }

  lemma {:induction false} RunValid(s: State, es: seq<Event>)
    requires Valid(s)
    ensures Valid(Run(s, es))
    decreases |es|
  {
    if es != [] {
      hide Valid, Step;
      match es[0] {
        case Arrive(c, uuid) => ArriveValid(s, c, uuid);
        case Park(c) => ParkValid(s, c);
        case _ => OtherValid(s, es[0]);
      }
      RunValid(Step(s, es[0]), es[1..]);
    }
  }

  // ---------------------------------------------------------------- what holds in every run

  /** Every relay joins two distinct connections that asked for the same uuid; no connection is in two
      relays, and none is both parked and relayed. */
  lemma RelaysAreProper(es: seq<Event>, i: nat, j: nat, c: Conn)
    requires i < |Run(EMPTY, es).relays| && j < |Run(EMPTY, es).relays|
    ensures var s := Run(EMPTY, es); var r := s.relays[i];
            && r.taker != r.peer && r.taker in s.tasks && r.peer in s.tasks && s.tasks[r.taker].uuid == s.tasks[r.peer].uuid
            && (In(r, c) ==> !Parked(s, c))
            && (In(r, c) && In(s.relays[j], c) ==> i == j)
  {
    RunValid(EMPTY, es);
    var s := Run(EMPTY, es);
    assert s.relays[i] in s.relays && GoodRelay(s, s.relays[i]);
  }

  /** A parked connection has its own sleeping task for that uuid and has been parked for at most 30 seconds. */
  lemma ParkedAtMostThirtySeconds(es: seq<Event>, u: string)
    requires u in Run(EMPTY, es).peers
    ensures var s := Run(EMPTY, es); var c := s.peers[u];
            c in s.tasks && s.tasks[c].uuid == u && s.tasks[c].phase.Sleeping? && s.now - s.tasks[c].phase.since <= 30_000
  {
    RunValid(EMPTY, es);
  }

  /** A new connection for a uuid takes the one parked under it; with none there, it can park and is found by the next. */
  lemma TheNextOnePairs(es: seq<Event>, u: string, c: Conn, d: Conn)
    requires u != "" && c != d && c !in Run(EMPTY, es).tasks && d !in Run(EMPTY, es).tasks
    ensures
      var s := Run(EMPTY, es);
      && (u in s.peers ==>
            var s1 := Step(s, Arrive(c, u));
            && s1.relays == s.relays + [Relay(c, s.peers[u])] && s1.peers == s.peers - {u}
            && s1.tasks[c] == Task(u, Relaying(s.peers[u])))
      && (u !in s.peers ==>
            var s1 := Step(Step(s, Arrive(c, u)), Park(c));
            var s2 := Step(s1, Arrive(d, u));
            && s1.relays == s.relays && s1.peers == s.peers[u := c] && s1.tasks[c] == Task(u, Sleeping(s.now))
            && s2.relays == s.relays + [Relay(d, c)] && s2.peers == s.peers)
  {
    hide Run;
    var s := Run(EMPTY, es);
    assert u !in s.peers ==> s.peers[u := c] - {u} == s.peers;
  }

  // ---------------------------------------------------------------- losing one's place

  /** When the connection's own timer fires. */
  function Deadline(s: State, c: Conn): nat
    requires c in s.tasks && s.tasks[c].phase.Sleeping?
  {
    s.tasks[c].phase.since + TIMEOUT
  }

  ghost predicate Waiting(s: State, u: string, c: Conn) {
    u in s.peers && s.peers[u] == c && c in s.tasks && s.tasks[c].phase.Sleeping?
  }

  /** Another task for the uuid that is about to park over the connection, or whose timer fires before its own. */
  ghost predicate Threat(s: State, u: string, c: Conn, d: Conn)
    requires Waiting(s, u, c)
  {
    && d != c
    && d in s.tasks
    && s.tasks[d].uuid == u
    && match s.tasks[d].phase
       case Deciding => s.now < Deadline(s, c)
       case Sleeping(since) => since < s.tasks[c].phase.since
       case _ => false
  }

  ghost predicate Relayed(s: State, c: Conn) { exists r :: r in s.relays && In(r, c) }

  /** The connection is neither parked nor relayed, and its own time is not up. */
  ghost predicate Lost(s: State, c: Conn, deadline: nat) { !Parked(s, c) && !Relayed(s, c) && s.now < deadline }

  ghost predicate CanLose(s: State, c: Conn, deadline: nat) { exists es :: Lost(Run(s, es), c, deadline) }

  /** The connection is parked without a threat, or relayed, or its time is up. */
  ghost predicate Safe(s: State, u: string, c: Conn, deadline: nat) {
    || (Waiting(s, u, c) && Deadline(s, c) == deadline && forall d :: !Threat(s, u, c, d))
    || Relayed(s, c)
    || s.now >= deadline
  }

  lemma ArriveSafe(s: State, x: Conn, uuid: string, u: string, c: Conn, deadline: nat)
    requires Valid(s) && Safe(s, u, c, deadline)
    ensures Safe(Step(s, Arrive(x, uuid)), u, c, deadline)
  {
    hide Disjoint, GoodRelay, OnTime;
    var s' := Step(s, Arrive(x, uuid));
    assert s.relays <= s'.relays;
    if Relayed(s, c) {
      var r :| r in s.relays && In(r, c);
      assert r in s'.relays;
    } else if s.now < deadline && x !in s.tasks && uuid == u != "" {
      assert Relay(x, c) in s'.relays && In(Relay(x, c), c);
    } else if s.now < deadline && x !in s.tasks && uuid != "" {
      forall d
        ensures !Threat(s', u, c, d)
      {
        assert !Threat(s, u, c, d);
      }
    }
  }

  lemma OtherSafe(s: State, e: Event, u: string, c: Conn, deadline: nat)
    requires Valid(s) && !e.Arrive? && Safe(s, u, c, deadline)
    ensures Safe(Step(s, e), u, c, deadline)
  {
    hide Disjoint, GoodRelay, OnTime;
    var s' := Step(s, e);
    assert s'.relays == s.relays && s'.now >= s.now;
    if Relayed(s, c) {
      assert Relayed(s', c);
    } else if s'.now < deadline {
      assert e.Park? ==> !Threat(s, u, c, e.c);
      assert e.Wake? ==> !Threat(s, u, c, e.c);
      forall d
        ensures !Threat(s', u, c, d)
      {
        assert !Threat(s, u, c, d);
      }
    }
  }

  lemma {:induction false} RunSafe(s: State, es: seq<Event>, u: string, c: Conn, deadline: nat)
    requires Valid(s) && Safe(s, u, c, deadline)
    ensures Safe(Run(s, es), u, c, deadline) && Valid(Run(s, es))
    decreases |es|
  {
    if es != [] {
      hide Valid, Step, Safe;
      match es[0] {
        case Arrive(x, uuid) => ArriveSafe(s, x, uuid, u, c, deadline);
        case _ => OtherSafe(s, es[0], u, c, deadline);
      }
      RunValid(s, [es[0]]);
      assert [es[0]][1..] == [] && Run(s, [es[0]]) == Step(s, es[0]);
      RunSafe(Step(s, es[0]), es[1..], u, c, deadline);
    }
  }

  lemma RunTwo(s: State, a: Event, b: Event, es: seq<Event>)
    ensures Run(s, [a, b] + es) == Run(Step(Step(s, a), b), es)
  {
    hide Step;
    assert ([a, b] + es)[1..] == [b] + es && ([b] + es)[1..] == es;
  }

  /** A deciding task parks over the connection at once. */
  lemma ParkTakesOver(s: State, u: string, c: Conn, d: Conn)
    requires Valid(s) && Waiting(s, u, c) && Threat(s, u, c, d) && s.tasks[d].phase.Deciding?
    ensures CanLose(s, c, Deadline(s, c))
  {
    hide Disjoint, OnTime;
    var s' := Step(s, Park(d));
    assert Parked(s, c);
    assert !Relayed(s, c);
    var es := [Park(d)];
    assert es[1..] == [] && Run(s', []) == s';
    assert Run(s, es) == s';
    assert Lost(Run(s, es), c, Deadline(s, c));
  }

  function Sleepers(s: State): set<Conn> { set x | x in s.tasks && s.tasks[x].phase.Sleeping? }

  lemma {:induction false} Earliest(s: State, among: set<Conn>) returns (m: Conn)
    requires among != {} && among <= Sleepers(s)
    ensures m in among && forall x :: x in among ==> s.tasks[m].phase.since <= s.tasks[x].phase.since
    decreases |among|
  {
    m :| m in among;
    if among != {m} {
      var n := Earliest(s, among - {m});
      if s.tasks[n].phase.since < s.tasks[m].phase.since { m := n; }
    }
  }

  /** Waking the earliest sleeper on time. */
  lemma WakeEarliest(s: State, m: Conn) returns (s': State, elapsed: nat)
    requires Valid(s) && m in Sleepers(s)
    requires forall x :: x in Sleepers(s) ==> s.tasks[m].phase.since <= s.tasks[x].phase.since
    ensures s' == Step(Step(s, Tick(elapsed)), Wake(m)) && Valid(s')
    ensures s'.now == s.tasks[m].phase.since + TIMEOUT && s'.relays == s.relays
    ensures s'.peers == s.peers - {s.tasks[m].uuid} && s'.tasks == s.tasks[m := s.tasks[m].(phase := Finished)]
  {
    hide GoodRelay, Disjoint;
    elapsed := s.tasks[m].phase.since + TIMEOUT - s.now;
    forall x | x in s.tasks && s.tasks[x].phase.Sleeping?
      ensures s.now + elapsed <= s.tasks[x].phase.since + TIMEOUT
    {
      assert x in Sleepers(s);
    }
    var s1 := Step(s, Tick(elapsed));
    assert s1 == s.(now := s.now + elapsed);
    s' := Step(s1, Wake(m));
    OtherValid(s, Tick(elapsed));
    OtherValid(s1, Wake(m));
  }

  /** An earlier timer for the same uuid fires first, however many other timers fire before it. */
  lemma {:induction false} TimerTakesAway(s: State, u: string, c: Conn, d: Conn) returns (es: seq<Event>)
    requires Valid(s) && Waiting(s, u, c) && Threat(s, u, c, d) && s.tasks[d].phase.Sleeping?
    ensures Lost(Run(s, es), c, Deadline(s, c))
    decreases |Sleepers(s)|
  {
    hide Step, Run, Valid;
    assert d in Sleepers(s) && c in Sleepers(s);
    var m := Earliest(s, Sleepers(s));
    var s', elapsed := WakeEarliest(s, m);
    ParkedIsUnrelayed(s, u, c);
    assert s.tasks[m].phase.since <= s.tasks[d].phase.since < s.tasks[c].phase.since;
    if s.tasks[m].uuid == u {
      es := [Tick(elapsed), Wake(m)];
      assert es + [] == es;
      RunTwo(s, Tick(elapsed), Wake(m), []);
      RunNone(s');
      OnlyPlace(s, u, c, s');
    } else {
      assert Sleepers(s') == Sleepers(s) - {m};
      assert Waiting(s', u, c) && Threat(s', u, c, d);
      var rest := TimerTakesAway(s', u, c, d);
      RunTwo(s, Tick(elapsed), Wake(m), rest);
      es := [Tick(elapsed), Wake(m)] + rest;
    }
  }

  lemma RunNone(s: State)
    ensures Run(s, []) == s
  {}

  lemma ParkedIsUnrelayed(s: State, u: string, c: Conn)
    requires Valid(s) && Waiting(s, u, c)
    ensures !Relayed(s, c)
  {
    hide Disjoint;
    assert Parked(s, c);
  }

  /** A connection is parked under its own uuid only. */
  lemma OnlyPlace(s: State, u: string, c: Conn, s': State)
    requires Valid(s) && Waiting(s, u, c) && s'.peers == s.peers - {u}
    ensures !Parked(s', c)
  {
    hide Disjoint, GoodRelay;
    assert forall v :: v in s.peers && s.peers[v] == c ==> v == u;
  }

  /** A parked connection can lose its place before its own 30 seconds, unpaired, if and only if another task for its
      uuid is about to park or went to sleep earlier. */
  lemma LosesPlaceExactly(es: seq<Event>, u: string, c: Conn)
    requires Waiting(Run(EMPTY, es), u, c)
    ensures
      var s := Run(EMPTY, es);
      CanLose(s, c, Deadline(s, c)) <==> exists d :: Threat(s, u, c, d)
  {
    RunValid(EMPTY, es);
    var s := Run(EMPTY, es);
    hide Valid, Step, Run;
    if d :| Threat(s, u, c, d) {
      if s.tasks[d].phase.Deciding? {
        ParkTakesOver(s, u, c, d);
      } else {
        var later := TimerTakesAway(s, u, c, d);
        assert Lost(Run(s, later), c, Deadline(s, c));
      }
    } else {
      forall later
        ensures !Lost(Run(s, later), c, Deadline(s, c))
      {
        RunSafe(s, later, u, c, Deadline(s, c));
        StillSafe(Run(s, later), u, c, Deadline(s, c));
      }
    }
  }

  lemma StillSafe(s: State, u: string, c: Conn, deadline: nat)
    requires Safe(s, u, c, deadline)
    ensures !Lost(s, c, deadline)
  {}

  /** A timer that fires takes away a parked connection before its time if and only if it shares its uuid and went to
      sleep earlier. */
  lemma WakeEvictsBySharedUuid(es: seq<Event>, c: Conn, u: string)
    requires
      var s := Run(EMPTY, es);
      && c in s.tasks
      && s.tasks[c].phase.Sleeping?
      && s.now >= Deadline(s, c)
      && u in s.peers
    ensures
      var s := Run(EMPTY, es);
      var d := s.peers[u];
      && Waiting(s, u, d)
      && (Lost(Step(s, Wake(c)), d, Deadline(s, d)) <==> s.tasks[c].uuid == u && s.tasks[c].phase.since < s.tasks[d].phase.since)
  {
    RunValid(EMPTY, es);
    hide Run, Disjoint, GoodRelay;
    var s := Run(EMPTY, es);
    ParkedIsUnrelayed(s, u, s.peers[u]);
    if s.tasks[c].uuid == u { OnlyPlace(s, u, s.peers[u], Step(s, Wake(c))); } else { assert u in Step(s, Wake(c)).peers; }
  }

  // ---------------------------------------------------------------- two runs that lose

  /** Two requesters of one uuid that both find nobody park one over the other and never meet. */
  lemma MissedEachOther(u: string, s1: State, s2: State)
    requires u != ""
    requires s1 == Step(Step(EMPTY, Arrive(1, u)), Arrive(2, u))
    requires s2 == Step(Step(s1, Park(1)), Park(2))
    ensures s2.peers == map[u := 2] && s2.relays == [] && s2.tasks[1].phase == Sleeping(s2.now)
  {
    assert s1.tasks == map[1 := Task(u, Deciding), 2 := Task(u, Deciding)] && s1.peers == map[];
  }

  /** The early loss does happen: the third connection is evicted after 20 seconds. */
  lemma EarlyEviction(u: string, s1: State, s2: State, s3: State, s4: State)
    requires u != ""
    requires s1 == Step(Step(Step(EMPTY, Arrive(1, u)), Park(1)), Tick(10_000))
    requires s2 == Step(Step(Step(s1, Arrive(2, u)), Arrive(3, u)), Park(3))
    requires s3 == Step(s2, Tick(20_000))
    requires s4 == Step(s3, Wake(1))
    ensures s3.peers == map[u := 3] && s3.now - s3.tasks[3].phase.since == 20_000
    ensures s4.peers == map[]
  {
    assert s1.peers == map[u := 1] && s1.tasks == map[1 := Task(u, Sleeping(0))] && s1.now == 10_000;
    var t := Step(s1, Arrive(2, u));
    assert t.peers == map[] && t.tasks == s1.tasks[2 := Task(u, Relaying(1))];
    assert s2.peers == map[u := 3] && s2.tasks == t.tasks[3 := Task(u, Sleeping(10_000))];
    assert s3.now == 30_000;
  }
}
