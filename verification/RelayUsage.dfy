/**
 Accounting in the relay loop: bits received, interval totals, speeds, and the downgrade decision.
 Counters are unbounded here; the source's are 64 bits wide.
 */
module RelayUsage {
  /** What one turn of the loop selected. */
  datatype Selected =
    | FromPeer(bytes: nat)
    | FromStream(bytes: nat)
    | TimerTick(idleSeconds: nat)
    | Closed

  /** One turn: `ms` since the last report, the list lookups, the live start-check setting, and whether sending failed. */
  datatype Turn = Turn(selected: Selected, sendFails: bool, ms: nat, blocked: bool, blacked: bool, startCheck: nat)

  /** A usage report, with the interval it closed and how many turns were over. */
  datatype Report = Report(elapsed: nat, total: nat, highest: nat, speed: nat, interval: nat, ms: nat, downgrade: bool, turns: nat)

  function BitsOf(t: Turn): nat {
    match t.selected
    case FromPeer(n) => n * 8
    case FromStream(n) => n * 8
    case _ => 0
  }

  /** Bits received in both directions. */
  function Received(ts: seq<Turn>): nat {
    if ts == [] then 0 else Received(ts[..|ts| - 1]) + BitsOf(ts[|ts| - 1])
  }

  function Intervals(rs: seq<Report>): nat {
    if rs == [] then 0 else Intervals(rs[..|rs| - 1]) + rs[|rs| - 1].interval
  }

  /** The average over threshold after the start check. */
  predicate Exceeds(t: Turn, elapsed: nat, total: nat, threshold: nat) {
    elapsed > t.startCheck && total > elapsed * threshold
  }

  /** The average speed of an interval, in bits per millisecond, rounded down. */
  function Speed(bits: nat, ms: nat): nat
    requires ms > 0
  {
    bits / ms
  }

  const START := Report(0, 0, 0, 0, 0, 0, false, 0)

  function LastReport(rs: seq<Report>): Report { if rs == [] then START else rs[|rs| - 1] }

  /** How one report follows the one before it. */
  ghost predicate Follows(ts: seq<Turn>, p: Report, r: Report, threshold: nat) {
    && p.turns < r.turns <= |ts| && r.ms == ts[r.turns - 1].ms >= 1000
    && r.elapsed == p.elapsed + r.ms && r.total == p.total + r.interval && r.speed == Speed(r.interval, r.ms)
    && r.highest == (if r.speed > p.highest then r.speed else p.highest)
    && (r.downgrade <==> p.downgrade || Exceeds(ts[r.turns - 1], r.elapsed, r.total, threshold))
  }

  ghost predicate Chain(ts: seq<Turn>, rs: seq<Report>, threshold: nat) {
    forall i :: 0 <= i < |rs| ==> Follows(ts, LastReport(rs[..i]), rs[i], threshold) && rs[i].total == Received(ts[..rs[i].turns])
  }

  // ---------------------------------------------------------------- what a turn leads to

  /** The connection is over before the turn does anything. */
  predicate EndsBefore(t: Turn) { t.selected.Closed? || (t.selected.TimerTick? && t.selected.idleSeconds > 30) }

  predicate SendingFails(t: Turn) { BitsOf(t) > 0 && t.sendFails }

  /** The turn is carried out and ends the connection. */
  predicate EndsAfter(t: Turn) { SendingFails(t) || (t.ms >= 1000 && t.blocked) }

  predicate Reporting(t: Turn) { t.ms >= 1000 && !EndsAfter(t) }

  /** The turns among the first `n` after which a report is due. */
  function Due(ts: seq<Turn>, n: nat): seq<nat>
    requires n <= |ts|
  {
    if n == 0 then [] else if Reporting(ts[n - 1]) then Due(ts, n - 1) + [n] else Due(ts, n - 1)
  }

  function ReportedAt(rs: seq<Report>): (turns: seq<nat>)
    ensures |turns| == |rs| && forall i :: 0 <= i < |rs| ==> turns[i] == rs[i].turns
  {
    seq(|rs|, i requires 0 <= i < |rs| => rs[i].turns)
  }

  /** The latest lookup of the blacklist found the address. */
  predicate Blacked(ts: seq<Turn>, n: nat)
    requires n <= |ts|
  {
    n > 0 && if Reporting(ts[n - 1]) then ts[n - 1].blacked else Blacked(ts, n - 1)
  }

  predicate Downgraded(rs: seq<Report>, n: nat) { exists r :: r in rs && r.turns <= n && r.downgrade }

  /** The bits of the first `n` turns that came while blacklisted or downgraded. */
  function SlowBits(ts: seq<Turn>, rs: seq<Report>, n: nat): nat
    requires n <= |ts|
  {
    if n == 0 then 0
    else SlowBits(ts, rs, n - 1) + if Blacked(ts, n - 1) || Downgraded(rs, n - 1) then BitsOf(ts[n - 1]) else 0
  }

  /** None of the first `done` turns ended the connection. */
  ghost predicate GoesOn(ts: seq<Turn>, done: nat) {
    done <= |ts| && forall j :: 0 <= j < done ==> !EndsBefore(ts[j]) && !EndsAfter(ts[j])
  }

  /** The loop went on to turn `done` and no further. */
  ghost predicate StopsAt(ts: seq<Turn>, done: nat) {
    (GoesOn(ts, done) && (done == |ts| || EndsBefore(ts[done]))) || EndsWith(ts, done)
  }

  ghost predicate EndsWith(ts: seq<Turn>, done: nat) {
    0 < done <= |ts| && GoesOn(ts, done - 1) && !EndsBefore(ts[done - 1]) && EndsAfter(ts[done - 1])
  }

  lemma OneMore(ts: seq<Turn>, done: nat)
    requires GoesOn(ts, done)
    ensures done == |ts| ==> StopsAt(ts, done)
    ensures done < |ts| && EndsBefore(ts[done]) ==> StopsAt(ts, done)
    ensures done < |ts| && !EndsBefore(ts[done]) && EndsAfter(ts[done]) ==> StopsAt(ts, done + 1)
    ensures done < |ts| && !EndsBefore(ts[done]) && !EndsAfter(ts[done]) ==> GoesOn(ts, done + 1)
  {}

  lemma {:induction false} LaterReport(ts: seq<Turn>, rs: seq<Report>, r: Report, n: nat)
    requires n <= |ts| && n <= r.turns
    ensures SlowBits(ts, rs + [r], n) == SlowBits(ts, rs, n)
    decreases n
  {
    if n > 0 {
      LaterReport(ts, rs, r, n - 1);
      assert forall x :: x in rs + [r] <==> x in rs || x == r;
    }
  }

  /** The newest report is among those so far. */
  lemma AddDowngrade(rs: seq<Report>, r: Report, n: nat, was: bool)
    requires r.turns == n && (was <==> Downgraded(rs, n))
    requires was ==> r.downgrade
    ensures Downgraded(rs + [r], n) <==> r.downgrade
  {
    assert r in rs + [r];
    assert forall x :: x in rs + [r] <==> x in rs || x == r;
  }

  /** What the loop's variables hold after `done` turns. */
  datatype Account = Account(total: nat, fast: nat, slow: nat, elapsed: nat, interval: nat, highest: nat, blacked: bool, downgrade: bool)

  ghost predicate Charged(ts: seq<Turn>, rs: seq<Report>, a: Account, done: nat, threshold: nat)
    requires done <= |ts|
  {
    && a.total == Received(ts[..done]) == a.fast + a.slow
    && a.slow == SlowBits(ts, rs, done)
    && Chain(ts, rs, threshold)
    && (forall r :: r in rs ==> r.turns <= done)
    && a.downgrade == Downgraded(rs, done)
    && var r := LastReport(rs);
       && a.total == r.total + a.interval
       && a.elapsed == r.elapsed
       && a.highest == r.highest
       && a.downgrade == r.downgrade
       && r.turns <= done
  }

  ghost predicate Accounted(ts: seq<Turn>, rs: seq<Report>, a: Account, done: nat, threshold: nat)
    requires done <= |ts|
  {
    Charged(ts, rs, a, done, threshold) && ReportedAt(rs) == Due(ts, done) && a.blacked == Blacked(ts, done)
  }

  function Charge(a: Account, t: Turn): Account {
    if a.blacked || a.downgrade then a.(slow := a.slow + BitsOf(t), total := a.total + BitsOf(t), interval := a.interval + BitsOf(t))
    else a.(fast := a.fast + BitsOf(t), total := a.total + BitsOf(t), interval := a.interval + BitsOf(t))
  }

  lemma TurnCharged(ts: seq<Turn>, rs: seq<Report>, a: Account, done: nat, threshold: nat)
    requires done < |ts| && Accounted(ts, rs, a, done, threshold)
    ensures Charged(ts, rs, Charge(a, ts[done]), done + 1, threshold)
    ensures !Reporting(ts[done]) ==> Accounted(ts, rs, Charge(a, ts[done]), done + 1, threshold)
    ensures Due(ts, done + 1) == if Reporting(ts[done]) then ReportedAt(rs) + [done + 1] else ReportedAt(rs)
  {
    hide Chain, Received, SlowBits, Due, Blacked, Downgraded;
    OneTurn(ts, rs, done);
  }

  /** The account after a report: a new interval, and the downgrade decision. */
  function Renewed(a: Account, r: Report, t: Turn): Account {
    a.(elapsed := r.elapsed, interval := 0, highest := r.highest, blacked := t.blacked, downgrade := r.downgrade)
  }

  lemma ReportAccounted(ts: seq<Turn>, rs: seq<Report>, a: Account, r: Report, done: nat, threshold: nat)
    requires 0 < done <= |ts| && Charged(ts, rs, a, done, threshold) && Reporting(ts[done - 1])
    requires LastReport(rs).turns < done && Due(ts, done) == ReportedAt(rs) + [done]
    requires r.turns == done && r.ms == ts[done - 1].ms && r.elapsed == a.elapsed + r.ms && r.total == a.total && r.interval == a.interval
    requires r.speed == Speed(a.interval, r.ms) && r.highest == if r.speed > a.highest then r.speed else a.highest
    requires r.downgrade <==> a.downgrade || Exceeds(ts[done - 1], r.elapsed, r.total, threshold)
    ensures Accounted(ts, rs + [r], Renewed(a, r, ts[done - 1]), done, threshold)
  {
    hide Chain, Received, SlowBits, Due, Downgraded, Exceeds, Speed;
    AddReport(ts, rs, r, threshold);
    LaterReport(ts, rs, r, done);
    AddDowngrade(rs, r, done, a.downgrade);
    assert ReportedAt(rs + [r]) == ReportedAt(rs) + [done];
  }

  /** What can be said once the loop stops: a report after every turn that was due one, each following from the one
      before it; all received bits charged to one limiter, the blacklist limiter exactly while blacklisted or downgraded. */
  ghost predicate Settled(ts: seq<Turn>, rs: seq<Report>, total: nat, fast: nat, slow: nat, done: nat, threshold: nat) {
    && done <= |ts|
    && ReportedAt(rs) == Due(ts, done)
    && Chain(ts, rs, threshold)
    && total == Received(ts[..done]) == fast + slow
    && slow == SlowBits(ts, rs, done)
  }

  /** The end of an interval: its speed, the usage entry, and the downgrade decision. */
  method NextReport(t: Turn, elapsed0: nat, total: nat, interval: nat, highest0: nat, downgrade0: bool, done: nat, threshold: nat)
    returns (report: Report)
    requires t.ms >= 1000
    ensures report.turns == done && report.ms == t.ms && report.elapsed == elapsed0 + t.ms
    ensures report.total == total && report.interval == interval && report.speed == Speed(interval, t.ms)
    ensures report.speed == interval / t.ms
    ensures report.highest == if report.speed > highest0 then report.speed else highest0
    ensures report.downgrade <==> downgrade0 || Exceeds(t, report.elapsed, total, threshold)
    ensures report.downgrade <==> downgrade0 || (report.elapsed > t.startCheck && total > report.elapsed * threshold)
  {
    var highest, downgrade := highest0, downgrade0;
    var speed := interval / t.ms;
    if speed > highest { highest := speed; }
    var elapsed := elapsed0 + t.ms;
    if elapsed > t.startCheck && !downgrade && total > elapsed * threshold { downgrade := true; }
    report := Report(elapsed, total, highest, speed, interval, t.ms, downgrade, done);
  }

  // ---------------------------------------------------------------- the accounts in bytes

  /** The bytes that the turns received from either side. */
  function Bytes(ts: seq<Turn>): nat {
    if ts == [] then 0
    else
      Bytes(ts[..|ts| - 1]) +
      match ts[|ts| - 1].selected
      case FromPeer(n) => n
      case FromStream(n) => n
      case TimerTick(_) => 0
      case Closed => 0
  }

  /** Turn `k` is the last of the first `n` that came a second or more after the report before it. */
  ghost predicate LastSecond(ts: seq<Turn>, k: nat, n: nat) {
    0 < k <= n <= |ts| && ts[k - 1].ms >= 1000 && forall j :: k <= j < n ==> ts[j].ms < 1000
  }

  /** After the first `n` turns: the last lookup found the address blacklisted, or some report decided for a downgrade. */
  ghost predicate Slow(ts: seq<Turn>, rs: seq<Report>, n: nat)
    requires n <= |ts|
  {
    || (exists k :: LastSecond(ts, k, n) && ts[k - 1].blacked)
    || (exists i :: 0 <= i < |rs| && rs[i].turns <= n && rs[i].downgrade)
  }

  /** Those of the first `n` turns' bytes that came while the connection was slow. */
  ghost function SlowBytes(ts: seq<Turn>, rs: seq<Report>, n: nat): int
    requires n <= |ts|
  {
    if n == 0 then 0
    else if Slow(ts, rs, n - 1) then SlowBytes(ts, rs, n - 1) + Bytes(ts[..n]) - Bytes(ts[..n - 1])
    else SlowBytes(ts, rs, n - 1)
  }

  lemma {:induction false} BitsAreBytes(ts: seq<Turn>)
    ensures Received(ts) == 8 * Bytes(ts)
    decreases |ts|
  {
    if ts != [] { BitsAreBytes(ts[..|ts| - 1]); }
  }

  lemma {:induction false} BlackedExactly(ts: seq<Turn>, n: nat)
    requires GoesOn(ts, n)
    ensures Blacked(ts, n) <==> exists k :: LastSecond(ts, k, n) && ts[k - 1].blacked
    decreases n
  {
    if n > 0 {
      BlackedExactly(ts, n - 1);
      if ts[n - 1].ms >= 1000 && ts[n - 1].blacked {
        assert LastSecond(ts, n, n);
      } else if ts[n - 1].ms < 1000 && Blacked(ts, n - 1) {
        var k: nat :| LastSecond(ts, k, n - 1) && ts[k - 1].blacked;
        assert LastSecond(ts, k, n);
      } else if ts[n - 1].ms < 1000 {
        forall k: nat | LastSecond(ts, k, n) ensures LastSecond(ts, k, n - 1) { }
      }
    }
  }

  lemma {:induction false} SlowBitsAreBytes(ts: seq<Turn>, rs: seq<Report>, n: nat)
    requires n <= |ts| && (n > 0 ==> GoesOn(ts, n - 1))
    ensures SlowBits(ts, rs, n) == 8 * SlowBytes(ts, rs, n)
    decreases n
  {
    if n > 0 {
      hide Received, Bytes, Blacked, BitsOf;
      SlowBitsAreBytes(ts, rs, n - 1);
      BlackedExactly(ts, n - 1);
      assert Downgraded(rs, n - 1) <==> exists i :: 0 <= i < |rs| && rs[i].turns <= n - 1 && rs[i].downgrade;
      OneTurn(ts, [], n - 1);
      BitsAreBytes(ts[..n]);
      BitsAreBytes(ts[..n - 1]);
    }
  }

  /** Data arrived that could not be sent on. */
  predicate Undelivered(t: Turn) {
    (t.selected.FromPeer? || t.selected.FromStream?) && t.selected.bytes > 0 && t.sendFails
  }

  /** When the loop stops, and after which turns it reports. */
  ghost predicate RunsExactly(ts: seq<Turn>, rs: seq<Report>, done: nat) {
    && done <= |ts|
    && (forall j :: 0 <= j < done ==> !ts[j].selected.Closed? && !(ts[j].selected.TimerTick? && ts[j].selected.idleSeconds > 30))
    && (forall j :: 0 <= j < done - 1 ==> !Undelivered(ts[j]) && !(ts[j].ms >= 1000 && ts[j].blocked))
    && (done < |ts| ==>
          || ts[done].selected.Closed?
          || (ts[done].selected.TimerTick? && ts[done].selected.idleSeconds > 30)
          || (done > 0 && (Undelivered(ts[done - 1]) || (ts[done - 1].ms >= 1000 && ts[done - 1].blocked))))
    && (forall r :: r in rs ==> 0 < r.turns <= done)
    && (forall i, j :: 0 <= i < j < |rs| ==> rs[i].turns < rs[j].turns)
    && (forall j :: 0 <= j < done ==>
          ((exists i :: 0 <= i < |rs| && rs[i].turns == j + 1) <==> ts[j].ms >= 1000 && !ts[j].blocked && !Undelivered(ts[j])))
  }

  lemma {:induction false} DueExactly(ts: seq<Turn>, n: nat)
    requires n <= |ts|
    ensures forall i :: 0 <= i < |Due(ts, n)| ==> 0 < Due(ts, n)[i] <= n && Reporting(ts[Due(ts, n)[i] - 1])
    ensures forall i, j :: 0 <= i < j < |Due(ts, n)| ==> Due(ts, n)[i] < Due(ts, n)[j]
    ensures forall j :: 0 <= j < n && Reporting(ts[j]) ==> j + 1 in Due(ts, n)
    decreases n
  {
    hide Reporting;
    if n > 0 { DueExactly(ts, n - 1); }
  }

  lemma RunIsExact(ts: seq<Turn>, rs: seq<Report>, done: nat)
    requires StopsAt(ts, done) && ReportedAt(rs) == Due(ts, done)
    ensures RunsExactly(ts, rs, done)
  {
    hide Due;
    DueExactly(ts, done);
    assert forall t: Turn :: SendingFails(t) <==> Undelivered(t);
    forall j | 0 <= j < done
      ensures (exists i :: 0 <= i < |rs| && rs[i].turns == j + 1) <==> ts[j].ms >= 1000 && !ts[j].blocked && !Undelivered(ts[j])
    {
      if Reporting(ts[j]) {
        assert j + 1 in ReportedAt(rs);
      } else {
        assert forall i :: 0 <= i < |rs| ==> rs[i].turns == ReportedAt(rs)[i];
      }
    }
    forall r | r in rs ensures 0 < r.turns <= done {
      var i :| 0 <= i < |rs| && rs[i] == r;
      assert ReportedAt(rs)[i] == r.turns;
    }
    forall i, j | 0 <= i < j < |rs| ensures rs[i].turns < rs[j].turns {
      assert ReportedAt(rs)[i] < ReportedAt(rs)[j];
    }
  }

  lemma RunInBytes(ts: seq<Turn>, rs: seq<Report>, total: nat, fast: nat, slow: nat, done: nat, threshold: nat)
    requires StopsAt(ts, done) && Settled(ts, rs, total, fast, slow, done, threshold)
    ensures total == 8 * Bytes(ts[..done]) && slow == 8 * SlowBytes(ts, rs, done) && fast + slow == total
    ensures RunsExactly(ts, rs, done) && Chain(ts, rs, threshold)
  {
    hide Chain, Received, SlowBits, SlowBytes, Bytes, Due, RunsExactly;
    BitsAreBytes(ts[..done]);
    SlowBitsAreBytes(ts, rs, done);
    RunIsExact(ts, rs, done);
  }

  /** relay: the loop until a turn ends the connection or the given turns are over.  `fast` and `slow` are the bits
      charged to the connection's own limiter and to the blacklist limiter. */
  method RunRelay(ts: seq<Turn>, threshold: nat) returns (reports: seq<Report>, total: nat, fast: nat, slow: nat, done: nat)
    ensures RunsExactly(ts, reports, done) && Chain(ts, reports, threshold)
    ensures total == 8 * Bytes(ts[..done]) && slow == 8 * SlowBytes(ts, reports, done) && fast + slow == total
    ensures StopsAt(ts, done) && Settled(ts, reports, total, fast, slow, done, threshold)
  {
    hide RunsExactly, Bytes, SlowBytes, Chain, StopsAt, GoesOn, Charged, Accounted, Settled, Exceeds;
    var elapsed: nat, interval: nat, highest: nat := 0, 0, 0;
    var downgrade, blacked := false, false;
    reports, total, fast, slow, done := [], 0, 0, 0, 0;
    NoTurns(ts, threshold);
    label relaying: {
      while done < |ts|
        invariant done <= |ts|
        invariant GoesOn(ts, done)
        invariant Accounted(ts, reports, Account(total, fast, slow, elapsed, interval, highest, blacked, downgrade), done, threshold)
      {
        var t := ts[done];
        ghost var before := Account(total, fast, slow, elapsed, interval, highest, blacked, downgrade);
        AccountMeans(ts, reports, before, done, threshold);
        OneMore(ts, done);
        match t.selected {
          case Closed => break relaying;
          case TimerTick(idle) =>
            if idle > 30 { break relaying; }
          case _ =>
            var bits := BitsOf(t);
            if blacked || downgrade { slow := slow + bits; } else { fast := fast + bits; }
            total := total + bits;
            interval := interval + bits;
        }
        ghost var charged := Account(total, fast, slow, elapsed, interval, highest, blacked, downgrade);
        assert charged == Charge(before, t);
        TurnCharged(ts, reports, before, done, threshold);
        done := done + 1;
        if !Reporting(t) { AccountMeans(ts, reports, charged, done, threshold); }
        if BitsOf(t) > 0 && t.sendFails { break relaying; }
        if t.ms >= 1000 {
          if t.blocked { break relaying; }
          var report := NextReport(t, elapsed, total, interval, highest, downgrade, done, threshold);
          ReportAccounted(ts, reports, charged, report, done, threshold);
          reports := reports + [report];
          elapsed, highest, downgrade, blacked, interval := report.elapsed, report.highest, report.downgrade, t.blacked, 0;
        }
      }
      OneMore(ts, done);
      AccountMeans(ts, reports, Account(total, fast, slow, elapsed, interval, highest, blacked, downgrade), done, threshold);
    }
    RunInBytes(ts, reports, total, fast, slow, done, threshold);
  }

  lemma NoTurns(ts: seq<Turn>, threshold: nat)
    ensures Accounted(ts, [], Account(0, 0, 0, 0, 0, 0, false, false), 0, threshold) && GoesOn(ts, 0)
  {
    assert ts[..0] == [];
  }

  lemma AccountMeans(ts: seq<Turn>, rs: seq<Report>, a: Account, done: nat, threshold: nat)
    requires done <= |ts| && Accounted(ts, rs, a, done, threshold)
    ensures Settled(ts, rs, a.total, a.fast, a.slow, done, threshold)
    ensures LastReport(rs).turns <= done
  {
    hide Chain, Received, SlowBits, Due, Blacked, Downgraded;
  }

  /** What one more turn adds, before any report on it. */
  lemma OneTurn(ts: seq<Turn>, rs: seq<Report>, n: nat)
    requires n < |ts| && forall r :: r in rs ==> r.turns <= n
    ensures Received(ts[..n + 1]) == Received(ts[..n]) + BitsOf(ts[n])
    ensures SlowBits(ts, rs, n + 1) == SlowBits(ts, rs, n) + if Blacked(ts, n) || Downgraded(rs, n) then BitsOf(ts[n]) else 0
    ensures Due(ts, n + 1) == if Reporting(ts[n]) then Due(ts, n) + [n + 1] else Due(ts, n)
    ensures Blacked(ts, n + 1) == if Reporting(ts[n]) then ts[n].blacked else Blacked(ts, n)
    ensures Downgraded(rs, n + 1) == Downgraded(rs, n)
  {
    assert ts[..n + 1][..n] == ts[..n];
  }

  lemma AddReport(ts: seq<Turn>, rs: seq<Report>, r: Report, threshold: nat)
    requires Chain(ts, rs, threshold)
    requires var p := LastReport(rs);
      && p.turns < r.turns <= |ts| && r.ms == ts[r.turns - 1].ms >= 1000
      && r.elapsed == p.elapsed + r.ms && r.total == p.total + r.interval && r.speed == Speed(r.interval, r.ms)
      && r.highest == (if r.speed > p.highest then r.speed else p.highest)
      && (r.downgrade <==> p.downgrade || Exceeds(ts[r.turns - 1], r.elapsed, r.total, threshold))
      && r.total == Received(ts[..r.turns])
    ensures Chain(ts, rs + [r], threshold)
  {
    var all := rs + [r];
    assert Follows(ts, LastReport(rs), r, threshold);
    hide Follows, LastReport, Speed;
    forall i | 0 <= i < |all|
      ensures Follows(ts, LastReport(all[..i]), all[i], threshold) && all[i].total == Received(ts[..all[i].turns])
    {
      assert all[..i] == rs[..i];
      if i == |rs| { assert rs[..i] == rs; }
    }
  }

  // ---------------------------------------------------------------- what every report says

  lemma MulMonotone(a: nat, b: nat, c: nat)
    requires b <= c
    ensures a * b <= a * c
  {}

  lemma FloorBelow(a: nat, b: nat, c: nat)
    requires b > 0 && a < b * (c + 1)
    ensures a / b <= c
  {
    assert a == b * (a / b) + a % b;
    if c + 1 <= a / b { MulMonotone(b, c + 1, a / b); }
  }

  lemma FloorAbove(a: nat, b: nat, c: nat)
    requires b > 0 && a / b <= c
    ensures a < b * (c + 1)
  {
    assert a == b * (a / b) + a % b;
    MulMonotone(b, a / b, c);
    Distribute(b, c, 1);
  }

  lemma Distribute(a: nat, b: nat, c: nat)
    ensures a * (b + c) == a * b + a * c
  {}

  /** Adding an interval keeps the total under `elapsed * (highest + 1)`, although each speed is rounded down. */
  lemma FloorStaysBelow(p: Report, r: Report)
    requires p.total < p.elapsed * (p.highest + 1) || (p.total == 0 && p.elapsed == 0)
    requires r.ms > 0 && r.elapsed == p.elapsed + r.ms && r.total == p.total + r.interval && r.speed == Speed(r.interval, r.ms)
    requires r.highest >= p.highest && r.highest >= r.speed
    ensures r.total < r.elapsed * (r.highest + 1)
  {
    var k := r.highest + 1;
    FloorAbove(r.interval, r.ms, r.highest);
    MulMonotone(p.elapsed, p.highest + 1, k);
    Distribute(k, p.elapsed, r.ms);
    assert r.elapsed * k == k * (p.elapsed + r.ms);
  }

  lemma {:induction false} TotalBelow(ts: seq<Turn>, rs: seq<Report>, i: nat, threshold: nat)
    requires Chain(ts, rs, threshold) && i < |rs|
    ensures rs[i].elapsed > 0 && rs[i].total < rs[i].elapsed * (rs[i].highest + 1)
    decreases i
  {
    hide Exceeds, Speed;
    var p := LastReport(rs[..i]);
    assert Follows(ts, p, rs[i], threshold);
    if i > 0 {
      assert rs[..i][i - 1] == rs[i - 1];
      TotalBelow(ts, rs, i - 1, threshold);
    }
    FloorStaysBelow(p, rs[i]);
  }

  /** The printed average never exceeds the recorded highest interval speed. */
  lemma AverageBelowHighest(ts: seq<Turn>, rs: seq<Report>, i: nat, threshold: nat)
    requires Chain(ts, rs, threshold) && i < |rs|
    ensures rs[i].elapsed > 0 && rs[i].total / rs[i].elapsed <= rs[i].highest
  {
    TotalBelow(ts, rs, i, threshold);
    FloorBelow(rs[i].total, rs[i].elapsed, rs[i].highest);
  }

  /** At every report the total is 8 times the bytes received so far, and the sum of all interval totals. */
  lemma {:induction false} TotalsAgree(ts: seq<Turn>, rs: seq<Report>, i: nat, threshold: nat)
    requires Chain(ts, rs, threshold) && i < |rs|
    ensures rs[i].turns <= |ts| && rs[i].total == 8 * Bytes(ts[..rs[i].turns]) == Intervals(rs[..i + 1])
    ensures rs[i].ms > 0 && rs[i].speed == rs[i].interval / rs[i].ms
    decreases i
  {
    hide Exceeds, Received, Bytes;
    BitsAreBytes(ts[..rs[i].turns]);
    var p := LastReport(rs[..i]);
    assert Follows(ts, p, rs[i], threshold);
    assert rs[..i + 1][..i] == rs[..i];
    if i > 0 {
      assert rs[..i][i - 1] == rs[i - 1];
      TotalsAgree(ts, rs, i - 1, threshold);
    }
  }

  /** Later reports never show a lower highest speed, and a downgrade lasts. */
  lemma {:induction false} NothingGoesBack(ts: seq<Turn>, rs: seq<Report>, i: nat, j: nat, threshold: nat)
    requires Chain(ts, rs, threshold) && i <= j < |rs|
    ensures rs[i].highest <= rs[j].highest && rs[i].speed <= rs[j].highest && (rs[i].downgrade ==> rs[j].downgrade)
    decreases j
  {
    hide Exceeds, Speed;
    assert Follows(ts, LastReport(rs[..j]), rs[j], threshold);
    if i < j {
      assert rs[..j][j - 1] == rs[j - 1];
      NothingGoesBack(ts, rs, i, j - 1, threshold);
    }
  }

  /** The highest speed was reached by some interval. */
  lemma {:induction false} HighestWasReached(ts: seq<Turn>, rs: seq<Report>, i: nat, threshold: nat)
    requires Chain(ts, rs, threshold) && i < |rs| && rs[i].highest > 0
    ensures exists j :: 0 <= j <= i && rs[j].speed == rs[i].highest
    decreases i
  {
    hide Exceeds, Speed;
    assert Follows(ts, LastReport(rs[..i]), rs[i], threshold);
    if rs[i].highest != rs[i].speed {
      assert rs[..i][i - 1] == rs[i - 1];
      HighestWasReached(ts, rs, i - 1, threshold);
    }
  }

  /** After the start check the average speed of the whole connection is over the threshold. */
  ghost predicate Caused(ts: seq<Turn>, r: Report, threshold: nat) {
    0 < r.turns <= |ts| && r.elapsed > ts[r.turns - 1].startCheck && r.total > r.elapsed * threshold
  }

  lemma CausedIsExceeds(ts: seq<Turn>, r: Report, threshold: nat)
    requires 0 < r.turns <= |ts|
    ensures Caused(ts, r, threshold) <==> Exceeds(ts[r.turns - 1], r.elapsed, r.total, threshold)
  {}

  /** A downgrade was caused by some report over the threshold, and every such report causes one. */
  lemma {:induction false} DowngradeWasCaused(ts: seq<Turn>, rs: seq<Report>, i: nat, threshold: nat)
    requires Chain(ts, rs, threshold) && i < |rs|
    ensures rs[i].downgrade <==> exists j :: 0 <= j <= i && Caused(ts, rs[j], threshold)
    decreases i
  {
    hide Exceeds, Speed, Caused, Received;
    assert Follows(ts, LastReport(rs[..i]), rs[i], threshold);
    CausedIsExceeds(ts, rs[i], threshold);
    if i > 0 {
      assert rs[..i][i - 1] == rs[i - 1];
      DowngradeWasCaused(ts, rs, i - 1, threshold);
    }
  }
}
