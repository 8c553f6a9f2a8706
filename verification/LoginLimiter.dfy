/**
 The sliding-window login limiter.  Its pruned state is proved to answer exactly what a fold over the
 whole history of failures, resets and bans answers; pruning at any moment changes no later answer.
 Clock readings are arguments and never go back.
 */
module LoginLimiter {
  datatype Policy = Policy(captchaThreshold: int, banThreshold: int, window: int, duration: int)

  predicate Disabled(p: Policy) { p.captchaThreshold < 0 && p.banThreshold == 0 }

  /** A recorded failure with its three clock readings, or a reset. */
  datatype Event =
    | Failed(ip: string, checkedAt: int, at: int, bannedAt: int)
    | Reset(ip: string)

  /** Everything that ever counted: no failure is pruned and no ban is dropped. */
  datatype Full = Full(failures: map<string, seq<int>>, bans: map<string, int>)

  function Get(m: map<string, seq<int>>, ip: string): seq<int> { if ip in m then m[ip] else [] }

  /** The times after the cutoff. */
  function Recent(ts: seq<int>, cutoff: int): seq<int> {
    if ts == [] then []
    else
      var rest, t := Recent(ts[..|ts| - 1], cutoff), ts[|ts| - 1];
      if t > cutoff then rest + [t] else rest
  }

  predicate Banned(bans: map<string, int>, ip: string, at: int) { ip in bans && at <= bans[ip] }

  function FoldStep(p: Policy, full: Full, e: Event): Full {
    match e
    case Reset(ip) => full.(failures := full.failures - {ip})
    case Failed(ip, checkedAt, at, bannedAt) =>
      if Disabled(p) || Banned(full.bans, ip, checkedAt) then full
      else if p.banThreshold > 0 && |Recent(Get(full.failures, ip), at - p.window)| + 1 >= p.banThreshold
      then Full(full.failures - {ip}, full.bans[ip := bannedAt + p.duration])
      else full.(failures := full.failures[ip := Get(full.failures, ip) + [at]])
  }

  function Fold(p: Policy, history: seq<Event>): Full {
    if history == [] then Full(map[], map[])
    else FoldStep(p, Fold(p, history[..|history| - 1]), history[|history| - 1])
  }

  /** The security status that the full history calls for. */
  function Answer(p: Policy, full: Full, ip: string, checkedAt: int, at: int): (bool, bool) {
    if Disabled(p) then (false, false)
    else if Banned(full.bans, ip, checkedAt) then (true, false)
    else (false, |Recent(Get(full.failures, ip), at - p.window)| >= p.captchaThreshold)
  }

  // ---------------------------------------------------------------- the answers in terms of the history alone

  /** A failure among the first `n` events put the address under a ban that has not passed at `at`. */
  ghost predicate UnderBan(p: Policy, h: seq<Event>, n: nat, ip: string, at: int)
    requires n <= |h|
    decreases n, 0
  {
    exists i: nat :: i < n && Reached(p, h, i) && h[i].ip == ip && at <= h[i].bannedAt + p.duration
  }

  /** Event `i` is a failure, not made under a ban, with which the address reached the ban threshold in its window. */
  ghost predicate Reached(p: Policy, h: seq<Event>, i: nat)
    requires i < |h|
    decreases i, 1
  {
    && h[i].Failed?
    && p.banThreshold > 0
    && !UnderBan(p, h, i, h[i].ip, h[i].checkedAt)
    && |Standing(p, h, i, h[i].ip, h[i].at - p.window)| + 1 >= p.banThreshold
  }

  /** The failures among the first `n` events that count against the address: later than the cutoff, not made under
      a ban, and with neither a reset nor a ban of the address since. */
  ghost function Standing(p: Policy, h: seq<Event>, n: nat, ip: string, cutoff: int): set<nat>
    requires n <= |h|
    decreases n, 0
  {
    set i: nat |
      && i < n
      && h[i].Failed? && h[i].ip == ip && h[i].at > cutoff
      && !UnderBan(p, h, i, ip, h[i].checkedAt)
      && forall k :: i <= k < n ==> h[k] != Reset(ip) && !(h[k].ip == ip && Reached(p, h, k))
  }

  /** The address's failures later than the cutoff, with no reset of the address since. */
  ghost function SinceReset(h: seq<Event>, ip: string, cutoff: int): set<nat> {
    set i: nat |
      && i < |h|
      && h[i].Failed? && h[i].ip == ip && h[i].at > cutoff
      && forall k :: i < k < |h| ==> h[k] != Reset(ip)
  }

  /** The clock did not go back between failures, nor since. */
  ghost predicate Ordered(h: seq<Event>, clock: int) {
    && (forall i :: 0 <= i < |h| && h[i].Failed? ==> h[i].bannedAt <= clock)
    && (forall i, j :: 0 <= i < j < |h| && h[i].Failed? && h[j].Failed? ==> h[i].bannedAt <= h[j].bannedAt)
  }

  lemma LaterOrdered(h: seq<Event>, clock: int, clock': int)
    requires Ordered(h, clock) && clock <= clock'
    ensures Ordered(h, clock')
  {}

  lemma NextOrdered(h: seq<Event>, clock: int, e: Event)
    requires Ordered(h, clock) && (e.Failed? ==> clock <= e.bannedAt)
    ensures Ordered(h + [e], if e.Failed? then e.bannedAt else clock)
  {}

  /** How the history's bans and standing failures change with one more event. */
  lemma OneMoreEvent(p: Policy, h: seq<Event>, n: nat, ip: string, at: int, cutoff: int)
    requires n < |h|
    ensures UnderBan(p, h, n + 1, ip, at) <==>
              UnderBan(p, h, n, ip, at) || (Reached(p, h, n) && h[n].ip == ip && at <= h[n].bannedAt + p.duration)
    ensures Standing(p, h, n + 1, ip, cutoff) ==
            if h[n].ip != ip then Standing(p, h, n, ip, cutoff)
            else if h[n].Reset? || Reached(p, h, n) then {}
            else if UnderBan(p, h, n, ip, h[n].checkedAt) || h[n].at <= cutoff then Standing(p, h, n, ip, cutoff)
            else Standing(p, h, n, ip, cutoff) + {n}
  {}

  /** The fold keeps exactly the bans and the standing failures of the history. */
  ghost predicate Tells(p: Policy, h: seq<Event>, n: nat, full: Full)
    requires n <= |h|
  {
    && (forall ip, at :: Banned(full.bans, ip, at) <==> UnderBan(p, h, n, ip, at))
    && (forall ip, cutoff :: |Recent(Get(full.failures, ip), cutoff)| == |Standing(p, h, n, ip, cutoff)|)
  }

  lemma {:induction false} FoldTells(p: Policy, h: seq<Event>, n: nat, clock: int)
    requires n <= |h| && Ordered(h, clock) && !Disabled(p)
    ensures Tells(p, h, n, Fold(p, h[..n]))
    decreases n
  {
    if n > 0 {
      FoldTells(p, h, n - 1, clock);
      assert h[..n][..n - 1] == h[..n - 1];
      TellsNext(p, h, n - 1, Fold(p, h[..n - 1]), clock);
    }
  }

  lemma TellsNext(p: Policy, h: seq<Event>, n: nat, full: Full, clock: int)
    requires n < |h| && Ordered(h, clock) && !Disabled(p) && Tells(p, h, n, full)
    ensures Tells(p, h, n + 1, FoldStep(p, full, h[n]))
  {
    hide FoldStep, Banned, Reached;
    forall ip, at ensures Banned(FoldStep(p, full, h[n]).bans, ip, at) <==> UnderBan(p, h, n + 1, ip, at) {
      BansNext(p, h, n, full, clock, ip, at);
    }
    forall ip, cutoff
      ensures |Recent(Get(FoldStep(p, full, h[n]).failures, ip), cutoff)| == |Standing(p, h, n + 1, ip, cutoff)|
    {
      FailuresNext(p, h, n, full, ip, cutoff);
    }
  }

  lemma BansNext(p: Policy, h: seq<Event>, n: nat, full: Full, clock: int, ip: string, at: int)
    requires n < |h| && Ordered(h, clock) && !Disabled(p) && Tells(p, h, n, full)
    ensures Banned(FoldStep(p, full, h[n]).bans, ip, at) <==> UnderBan(p, h, n + 1, ip, at)
  {
    hide Standing, Recent;
    OneMoreEvent(p, h, n, ip, at, 0);
  }

  lemma FailuresNext(p: Policy, h: seq<Event>, n: nat, full: Full, ip: string, cutoff: int)
    requires n < |h| && !Disabled(p) && Tells(p, h, n, full)
    ensures |Recent(Get(FoldStep(p, full, h[n]).failures, ip), cutoff)| == |Standing(p, h, n + 1, ip, cutoff)|
  {
    hide Standing, UnderBan, Recent, Banned;
    OneMoreEvent(p, h, n, ip, 0, cutoff);
    if h[n].Failed? && h[n].ip == ip {
      RecentSnoc(Get(full.failures, ip), h[n].at, cutoff);
      assert Banned(full.bans, ip, h[n].checkedAt) <==> UnderBan(p, h, n, ip, h[n].checkedAt);
      assert |Recent(Get(full.failures, ip), h[n].at - p.window)| == |Standing(p, h, n, ip, h[n].at - p.window)|;
      NotYet(p, h, n, ip, cutoff);
    }
    EmptyRecent(cutoff);
  }

  lemma EmptyRecent(cutoff: int)
    ensures Recent([], cutoff) == []
  {}

  lemma NotYet(p: Policy, h: seq<Event>, n: nat, ip: string, cutoff: int)
    requires n <= |h|
    ensures n !in Standing(p, h, n, ip, cutoff)
  {}

  lemma {:induction false} NeverBanned(p: Policy, h: seq<Event>, n: nat, ip: string, at: int)
    requires n <= |h| && p.banThreshold <= 0
    ensures !UnderBan(p, h, n, ip, at)
  {
    hide Standing;
    assert forall i: nat :: i < n ==> !Reached(p, h, i);
  }

  /** With bans off, the standing failures are those since the last reset. */
  lemma CaptchaOnly(p: Policy, h: seq<Event>, ip: string, cutoff: int)
    requires p.banThreshold <= 0
    ensures Standing(p, h, |h|, ip, cutoff) == SinceReset(h, ip, cutoff)
  {
    assert forall i: nat :: i < |h| ==> !Reached(p, h, i);
    forall i: nat | i < |h| && h[i].Failed?
      ensures !UnderBan(p, h, i, ip, h[i].checkedAt)
    {
      NeverBanned(p, h, i, ip, h[i].checkedAt);
    }
  }

  /** The fold's answer is the history's answer. */
  lemma AnswerMeans(p: Policy, h: seq<Event>, clock: int, ip: string, t0: int, t1: int)
    requires Ordered(h, clock)
    ensures
      var (banned, captcha) := Answer(p, Fold(p, h), ip, t0, t1);
      && (p.captchaThreshold < 0 && p.banThreshold == 0 ==> !banned && !captcha)
      && (p.captchaThreshold >= 0 || p.banThreshold != 0 ==>
            && (banned <==> UnderBan(p, h, |h|, ip, t0))
            && (captcha <==> !banned && |Standing(p, h, |h|, ip, t1 - p.window)| >= p.captchaThreshold))
  {
    if p.captchaThreshold >= 0 || p.banThreshold != 0 {
      FoldTells(p, h, |h|, clock);
      assert h[..|h|] == h;
    }
  }

  // ---------------------------------------------------------------- filtering

  lemma {:induction false} RecentTwice(ts: seq<int>, c: int, d: int)
    requires c <= d
    ensures Recent(Recent(ts, c), d) == Recent(ts, d)
    decreases |ts|
  {
    if ts != [] {
      var rest, t := ts[..|ts| - 1], ts[|ts| - 1];
      RecentTwice(rest, c, d);
      if t > c { assert (Recent(rest, c) + [t])[..|Recent(rest, c)|] == Recent(rest, c); }
    }
  }

  lemma RecentSnoc(ts: seq<int>, t: int, c: int)
    ensures Recent(ts + [t], c) == if t > c then Recent(ts, c) + [t] else Recent(ts, c)
  {
    assert (ts + [t])[..|ts|] == ts;
  }

  /** The kept times show the same as all times, for every cutoff from `from` on. */
  ghost predicate Agree(kept: seq<int>, all: seq<int>, from: int) {
    forall c :: c >= from ==> Recent(kept, c) == Recent(all, c)
  }

  lemma AgreePruned(kept: seq<int>, all: seq<int>, from: int, cutoff: int)
    requires Agree(kept, all, from) && from <= cutoff
    ensures Agree(Recent(kept, cutoff), all, cutoff)
  {
    forall c | c >= cutoff ensures Recent(Recent(kept, cutoff), c) == Recent(all, c) {
      RecentTwice(kept, cutoff, c);
    }
  }

  lemma AgreeAppended(kept: seq<int>, all: seq<int>, from: int, t: int)
    requires Agree(kept, all, from)
    ensures Agree(kept + [t], all + [t], from)
  {
    forall c | c >= from ensures Recent(kept + [t], c) == Recent(all + [t], c) {
      RecentSnoc(kept, t, c);
      RecentSnoc(all, t, c);
    }
  }

  // ---------------------------------------------------------------- the limiter

  /** For one address: the kept attempts and the ban record show what the full history shows from now on. */
  ghost predicate Shows(p: Policy, full: Full, attempts: map<string, seq<int>>, bans: map<string, int>, clock: int, ip: string) {
    && Agree(Get(attempts, ip), Get(full.failures, ip), clock - p.window)
    && (forall t :: t >= clock ==> Banned(bans, ip, t) == Banned(full.bans, ip, t))
    && (ip in bans ==> ip !in attempts)
    && (ip in attempts && p.banThreshold > 0 ==> |attempts[ip]| < p.banThreshold)
  }

  /** Expired ban records may be dropped and attempts pruned as the clock moves on. */
  ghost predicate Tidied(p: Policy, attempts: map<string, seq<int>>, bans: map<string, int>, clock: int,
                         attempts': map<string, seq<int>>, bans': map<string, int>, clock': int, ip: string, cutoff: int) {
    && clock - p.window <= cutoff <= clock' - p.window
    && (Get(attempts', ip) == Get(attempts, ip) || Get(attempts', ip) == Recent(Get(attempts, ip), cutoff))
    && (ip in attempts' ==> ip in attempts)
    && (ip in bans' ==> ip in bans && bans'[ip] == bans[ip])
    && (ip !in bans' && ip in bans ==> clock' > bans[ip])
  }

  lemma StillShows(p: Policy, full: Full, attempts: map<string, seq<int>>, bans: map<string, int>, clock: int,
                   attempts': map<string, seq<int>>, bans': map<string, int>, clock': int, ip: string, cutoff: int)
    requires Shows(p, full, attempts, bans, clock, ip) && Tidied(p, attempts, bans, clock, attempts', bans', clock', ip, cutoff)
    ensures Shows(p, full, attempts', bans', clock', ip)
  {
    hide Recent;
    var kept, all := Get(attempts, ip), Get(full.failures, ip);
    AgreePruned(kept, all, clock - p.window, cutoff);
    RecentShorter(kept, cutoff);
    assert Agree(Get(attempts', ip), all, clock' - p.window);
  }

  /** What a failure does to the kept state of one address. */
  ghost predicate FailureEffect(p: Policy, attempts: map<string, seq<int>>, bans: map<string, int>,
                                attempts': map<string, seq<int>>, bans': map<string, int>, e: Event, a: string)
    requires e.Failed?
  {
    if a != e.ip || Disabled(p) || Banned(bans, a, e.checkedAt) then
      && (a in attempts' <==> a in attempts)
      && Get(attempts', a) == Get(attempts, a)
      && (a in bans' <==> a in bans)
      && (a in bans ==> bans'[a] == bans[a])
    else
      var kept := Recent(Get(attempts, a), e.at - p.window) + [e.at];
      if p.banThreshold > 0 && |kept| >= p.banThreshold
      then a !in attempts' && a in bans' && bans'[a] == e.bannedAt + p.duration
      else a in attempts' && attempts'[a] == kept && a !in bans'
  }

  class LoginLimiter {
    var policy: Policy
    var attempts: map<string, seq<int>>
    var bans: map<string, int>
    ghost var history: seq<Event>
    ghost var clock: int

    ghost predicate Valid()
      reads this
    {
      Ordered(history, clock) && forall ip :: Shows(policy, Fold(policy, history), attempts, bans, clock, ip)
    }

    constructor (p: Policy, now: int)
      ensures Valid() && history == [] && clock == now
      ensures policy == p.(window := if p.window == 0 then 300 else p.window, duration := if p.duration == 0 then 1800 else p.duration)
    {
      policy := p.(window := if p.window == 0 then 300 else p.window, duration := if p.duration == 0 then 1800 else p.duration);
      attempts, bans, history, clock := map[], map[], [], now;
    }

    /** isBanned: reads the ban record and drops it once expired. */
    method IsBanned(ip: string, now: int) returns (banned: bool)
      modifies `bans
      ensures banned == Banned(old(bans), ip, now)
      ensures bans == if ip in old(bans) && !banned then old(bans) - {ip} else old(bans)
    {
      if ip !in bans { return false; }
      if now > bans[ip] {
        bans := bans - {ip};
        return false;
      }
      return true;
    }

    /** pruneAttempts: keeps the recent attempts, and no empty list. */
    method PruneAttempts(ip: string, cutoff: int) returns (valid: seq<int>)
      modifies `attempts
      ensures valid == Recent(Get(old(attempts), ip), cutoff) == Get(attempts, ip)
      ensures attempts == if valid == [] then old(attempts) - {ip} else old(attempts)[ip := valid]
      ensures attempts.Keys <= old(attempts).Keys
    {
      valid := [];
      var ts := Get(attempts, ip);
      var i := 0;
      while i < |ts|
        invariant 0 <= i <= |ts| && valid == Recent(ts[..i], cutoff)
      {
        assert ts[..i + 1][..i] == ts[..i];
        if ts[i] > cutoff { valid := valid + [ts[i]]; }
        i := i + 1;
      }
      assert ts[..i] == ts;
      if valid == [] {
        attempts := attempts - {ip};
      } else {
        attempts := attempts[ip := valid];
      }
    }

    method CheckSecurityStatus(ip: string, t0: int, t1: int) returns (banned: bool, captchaRequired: bool)
      requires Valid() && clock <= t0 <= t1
      modifies this
      ensures Valid() && policy == old(policy) && history == old(history) && clock == t1
      ensures (banned, captchaRequired) == Answer(policy, Fold(policy, history), ip, t0, t1)
      ensures policy.captchaThreshold < 0 && policy.banThreshold == 0 ==> !banned && !captchaRequired
      ensures policy.captchaThreshold >= 0 && policy.banThreshold == 0 ==>
        !banned && (captchaRequired <==> |SinceReset(history, ip, t1 - policy.window)| >= policy.captchaThreshold)
      ensures policy.captchaThreshold >= 0 || policy.banThreshold != 0 ==>
        && (banned <==> UnderBan(policy, history, |history|, ip, t0))
        && (captchaRequired <==>
              !banned && |Standing(policy, history, |history|, ip, t1 - policy.window)| >= policy.captchaThreshold)
    {
      hide Fold, Recent, Shows, Agree, Ordered, UnderBan, Standing, SinceReset;
      AnswerMeans(policy, history, clock, ip, t0, t1);
      LaterOrdered(history, clock, t1);
      if policy.banThreshold == 0 {
        CaptchaOnly(policy, history, ip, t1 - policy.window);
        NeverBanned(policy, history, |history|, ip, t0);
      }
      ghost var full, attempts0, bans0, clock0 := Fold(policy, history), attempts, bans, clock;
      assert Shows(policy, full, attempts, bans, clock, ip);
      SameAnswer(policy, full, attempts, bans, clock, ip, t0, t1);
      banned, captchaRequired := false, false;
      clock := t1;
      if !Disabled(policy) {
        banned := IsBanned(ip, t0);
        if !banned {
          var valid := PruneAttempts(ip, t1 - policy.window);
          captchaRequired := |Get(attempts, ip)| >= policy.captchaThreshold;
        }
      }
      forall a ensures Shows(policy, full, attempts, bans, clock, a) {
        assert Shows(policy, full, attempts0, bans0, clock0, a);
        StillShows(policy, full, attempts0, bans0, clock0, attempts, bans, clock, a, t1 - policy.window);
      }
    }

    method RemoveAttempts(ip: string)
      requires Valid()
      modifies this
      ensures Valid() && policy == old(policy) && history == old(history) + [Reset(ip)] && clock == old(clock)
    {
      ghost var full, attempts0 := Fold(policy, history), attempts;
      if ip in attempts {
        attempts := attempts - {ip};
      }
      FoldSnoc(policy, history, Reset(ip));
      NextOrdered(history, clock, Reset(ip));
      history := history + [Reset(ip)];
      hide Fold, Ordered;
      forall a ensures Shows(policy, full.(failures := full.failures - {ip}), attempts, bans, clock, a) {
        assert Shows(policy, full, attempts0, bans, clock, a);
      }
    }

    /** The body of RecordFailedAttempt: ban check, pruning, the new attempt, and the ban at the threshold. */
    method CountFailure(ip: string, t0: int, t1: int, t2: int)
      modifies `attempts, `bans
      ensures forall a :: FailureEffect(policy, old(attempts), old(bans), attempts, bans, Failed(ip, t0, t1, t2), a)
    {
      hide Recent, Banned, Disabled, Standing, UnderBan, Reached;
      if Disabled(policy) { return; }
      var banned := IsBanned(ip, t0);
      if banned { return; }
      var validAttempts := PruneAttempts(ip, t1 - policy.window);
      validAttempts := validAttempts + [t1];
      attempts := attempts[ip := validAttempts];
      if policy.banThreshold > 0 && |validAttempts| >= policy.banThreshold {
        bans := bans[ip := t2 + policy.duration];
        attempts := attempts - {ip};
      }
    }

    /** RecordFailedAttempt, with the clock readings of the ban check, of the attempt and of the ban. */
    method RecordFailedAttempt(ip: string, t0: int, t1: int, t2: int)
      requires Valid() && clock <= t0 <= t1 <= t2
      modifies this
      ensures Valid() && policy == old(policy) && history == old(history) + [Failed(ip, t0, t1, t2)] && clock == t2
    {
      hide Fold, FoldStep, Recent, Shows, Agree, Ordered;
      ghost var e := Failed(ip, t0, t1, t2);
      NextOrdered(history, clock, e);
      ghost var full, attempts0, bans0, clock0 := Fold(policy, history), attempts, bans, clock;
      FoldSnoc(policy, history, e);
      history := history + [e];
      clock := t2;
      assert Shows(policy, full, attempts0, bans0, clock0, ip);
      SameAnswer(policy, full, attempts0, bans0, clock0, ip, t0, t1);
      assert attempts == attempts0 && bans == bans0;
      CountFailure(ip, t0, t1, t2);
      assert forall a :: FailureEffect(policy, attempts0, bans0, attempts, bans, e, a);
      forall a ensures Shows(policy, FoldStep(policy, full, e), attempts, bans, clock, a) {
        assert Shows(policy, full, attempts0, bans0, clock0, a);
        FailureShows(policy, full, attempts0, bans0, clock0, attempts, bans, e, a);
      }
    }

    /** cleanupExpired: may run at any moment and changes no later answer. */
    method CleanupExpired(now: int)
      requires Valid() && clock <= now
      modifies this
      ensures Valid() && policy == old(policy) && history == old(history) && clock == now
    {
      hide Fold, Recent, Shows, Agree, Ordered;
      LaterOrdered(history, clock, now);
      ghost var full, attempts0, bans0, clock0 := Fold(policy, history), attempts, bans, clock;
      clock := now;
      var ips := bans.Keys;
      while ips != {}
        invariant ips <= bans.Keys <= bans0.Keys
        invariant forall a :: a in bans ==> bans[a] == bans0[a]
        invariant forall a :: a in bans0 && a !in bans ==> now > bans0[a]
        decreases ips
        modifies `bans
      {
        var ip :| ip in ips;
        if now > bans[ip] { bans := bans - {ip}; }
        ips := ips - {ip};
      }
      ips := attempts.Keys;
      while ips != {}
        invariant ips <= attempts.Keys <= attempts0.Keys
        invariant forall a :: a in ips ==> attempts[a] == attempts0[a]
        invariant forall a :: a !in ips ==>
          Get(attempts, a) == Recent(Get(attempts0, a), now - policy.window) || Get(attempts, a) == Get(attempts0, a)
        decreases ips
        modifies `attempts
      {
        var ip :| ip in ips;
        var valid := PruneAttempts(ip, now - policy.window);
        ips := ips - {ip};
      }
      forall a ensures Shows(policy, full, attempts, bans, clock, a) {
        assert Shows(policy, full, attempts0, bans0, clock0, a);
        StillShows(policy, full, attempts0, bans0, clock0, attempts, bans, clock, a, now - policy.window);
      }
    }
  }

  /** The pruned state gives the full history's answer. */
  lemma SameAnswer(p: Policy, full: Full, attempts: map<string, seq<int>>, bans: map<string, int>, clock: int, ip: string, t0: int, t1: int)
    requires Shows(p, full, attempts, bans, clock, ip) && clock <= t0 <= t1
    ensures Banned(bans, ip, t0) == Banned(full.bans, ip, t0)
    ensures Recent(Get(attempts, ip), t1 - p.window) == Recent(Get(full.failures, ip), t1 - p.window)
  {
    hide Recent;
  }

  lemma FoldSnoc(p: Policy, history: seq<Event>, e: Event)
    ensures Fold(p, history + [e]) == FoldStep(p, Fold(p, history), e)
  {
    assert (history + [e])[..|history|] == history;
  }

  /** What one recorded failure makes of the kept state, for any address. */
  lemma FailureShows(p: Policy, full: Full, attempts: map<string, seq<int>>, bans: map<string, int>, clock: int,
                     attempts': map<string, seq<int>>, bans': map<string, int>, e: Event, a: string)
    requires Shows(p, full, attempts, bans, clock, a) && e.Failed? && clock <= e.checkedAt <= e.at <= e.bannedAt
    requires a == e.ip ==> Banned(bans, a, e.checkedAt) == Banned(full.bans, a, e.checkedAt)
    requires a == e.ip ==> Recent(Get(attempts, a), e.at - p.window) == Recent(Get(full.failures, a), e.at - p.window)
    requires FailureEffect(p, attempts, bans, attempts', bans', e, a)
    ensures Shows(p, FoldStep(p, full, e), attempts', bans', e.bannedAt, a)
  {
    hide Recent;
    var full' := FoldStep(p, full, e);
    if a != e.ip || Disabled(p) || Banned(bans, a, e.checkedAt) {
      assert Banned(full.bans, e.ip, e.checkedAt) || Disabled(p) || a != e.ip;
      StillShows(p, full, attempts, bans, clock, attempts', bans', e.bannedAt, a, clock - p.window);
      assert Get(full'.failures, a) == Get(full.failures, a);
    } else {
      var kept, all := Recent(Get(attempts, a), e.at - p.window), Get(full.failures, a);
      AgreePruned(Get(attempts, a), all, clock - p.window, e.at - p.window);
      AgreeAppended(kept, all, e.at - p.window, e.at);
    }
  }

  lemma {:induction false} RecentShorter(ts: seq<int>, c: int)
    ensures |Recent(ts, c)| <= |ts|
    decreases |ts|
  {
    if ts != [] { RecentShorter(ts[..|ts| - 1], c); }
  }
}
