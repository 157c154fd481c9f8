/**
 What each operation of the pool does, field by field, in every reachable state:
 the complete state afterwards and the reply, for every branch.
 */
module PoolEffects {
  import opened Options
  import opened PoolModel
  import opened PoolSafety
  import opened PoolRuns
  import opened PoolOrder
  import opened PoolLimits
  import opened PoolFlags

  // ---------------------------------------------------------------------
  // Clock and tables, read directly
  // ---------------------------------------------------------------------

  /** The reading after c: what the environment supplies next, unless that would go back. */
  function Following(c: Clock): Clock {
    if c.ahead == [] then c
    else if c.ahead[0] < c.now then Clock(c.now, c.ahead[1..])
    else Clock(c.ahead[0], c.ahead[1..])
  }

  /** What is known about t. */
  ghost function RecordOf(s: State, t: int): Team {
    if t in s.teams then s.teams[t] else Team(None, None, None, [])
  }

  ghost predicate Holds(s: State, t: int, id: string) {
    id in s.instances && s.instances[id].team == Some(t)
  }

  ghost predicate HoldsNothing(s: State, t: int) {
    forall id :: id in s.instances ==> s.instances[id].team != Some(t)
  }

  /** The first k of the order are busy or booting, and the next is idle. */
  ghost predicate FirstIdle(s: State, k: nat) {
    && k < |s.order| && s.order[k] in s.instances && s.instances[s.order[k]].phase == Idle
    && forall j :: 0 <= j < k && s.order[j] in s.instances ==> s.instances[s.order[j]].phase != Idle
  }

  ghost predicate NoneIdle(s: State) {
    forall id :: id in s.instances ==> s.instances[id].phase != Idle
  }

  lemma HolderTable(s: State, t: int, id: string)
    requires Inv(s) && Holds(s, t, id)
    ensures id != "" && t in s.teams && s.teams[t].instance == Some(id) && t !in s.queue
    ensures CurrentLease(s, t) == Some(id) && TeamOf(s, t) == s.teams[t]
    ensures s.instances[id].phase == Leased && s.instances[id].expires.Some?
  {
    hide TeamHistory, CooldownKept, HasRoom, TermKept;
    assert TeamOf(s, t).instance == Some(id);
  }

  lemma NobodyHolds(s: State, t: int)
    requires Inv(s) && HoldsNothing(s, t)
    ensures CurrentLease(s, t).None? && TeamOf(s, t).instance.None?
  {
    hide TeamHistory, CooldownKept, HasRoom, TermKept, Queue;
    LeaseFound(s, t);
  }

  lemma IdleIsFree(s: State, id: string)
    requires Inv(s)
    ensures IsFree(s.instances, id) <==> id in s.instances && s.instances[id].phase == Idle
  {
    hide TeamHistory, CooldownKept, HasRoom, TermKept, Queue;
  }

  lemma FirstIdleFree(s: State, k: nat)
    requires Inv(s) && FirstIdle(s, k)
    ensures Free(s) != [] && Free(s)[0] == s.order[k]
  {
    hide Inv, FreeIn;
    forall j | 0 <= j < |s.order|
      ensures IsFree(s.instances, s.order[j]) <==> s.order[j] in s.instances && s.instances[s.order[j]].phase == Idle
    {
      IdleIsFree(s, s.order[j]);
    }
    FirstFree(s.order, s.instances, k);
  }

  lemma NoneIdleFree(s: State)
    requires Inv(s) && NoneIdle(s)
    ensures Free(s) == []
  {
    hide Inv, FreeIn;
    forall id | id in s.order ensures !IsFree(s.instances, id) {
      IdleIsFree(s, id);
    }
  }

  // ---------------------------------------------------------------------
  // Release
  // ---------------------------------------------------------------------

  /** A release ends the lease: the instance reboots, the team is free from this reading on, the history records it,
      and nothing else changes. */
  lemma ReleaseEnds(s: State, t: int, id: string)
    requires Inv(s) && Holds(s, t, id)
    ensures t in s.teams
    ensures var now := Following(s.clock).now;
            Step(s, AskRelease(t)) == s.(clock := Following(s.clock),
                                         instances := s.instances[id := Instance(None, None, Booting)],
                                         teams := s.teams[t := Team(None, None, Some(now), s.teams[t].acquisitions)],
                                         log := s.log + [Freed(t, id, now)])
  {
    hide Inv;
    HolderTable(s, t, id);
  }

  /** Without a lease it takes the team out of the queue, keeps the others in order, and changes nothing else. */
  lemma ReleaseLeaves(s: State, t: int)
    requires Inv(s) && HoldsNothing(s, t)
    ensures var r := Step(s, AskRelease(t));
            && r == s.(queue := r.queue) && t !in r.queue
            && if t !in s.queue then r.queue == s.queue
               else exists i :: 0 <= i < |s.queue| && s.queue[i] == t && r.queue == s.queue[..i] + s.queue[i + 1..]
  {
    hide Inv, Without;
    NobodyHolds(s, t);
    QueueOf(s);
    WithoutOne(s.queue, t);
    var i := WithoutCuts(s.queue, t);
  }

  lemma {:induction false} WithoutCuts(queue: seq<int>, t: int) returns (i: nat)
    ensures t !in queue ==> Without(queue, t) == queue
    ensures t in queue ==> i < |queue| && queue[i] == t && Without(queue, t) == queue[..i] + queue[i + 1..]
    decreases |queue|
  {
    i := 0;
    WithoutStep(queue, t);
    hide Without;
    if queue != [] && queue[0] != t {
      var rest := queue[1..];
      assert queue == [queue[0]] + rest;
      var k := WithoutCuts(rest, t);
      if t in rest {
        i := k + 1;
        assert queue[..i] == [queue[0]] + rest[..k] && queue[i + 1..] == rest[k + 1..];
      }
    }
  }

  lemma WithoutStep(queue: seq<int>, t: int)
    ensures queue == [] ==> Without(queue, t) == queue
    ensures queue != [] && queue[0] == t ==> Without(queue, t) == queue[..0] + queue[1..]
    ensures queue != [] && queue[0] != t ==> Without(queue, t) == [queue[0]] + Without(queue[1..], t)
  {
  }

  // ---------------------------------------------------------------------
  // Lease
  // ---------------------------------------------------------------------

  /** Whole seconds, towards zero. */
  ghost predicate WholeSeconds(n: int, x: real) {
    if x >= 0.0 then n as real <= x < n as real + 1.0 else x <= n as real < x + 1.0
  }

  lemma TruncSeconds(x: real)
    ensures WholeSeconds(Trunc(x), x)
  {
  }

  /** A holder is shown its lease; only the clock is read. */
  lemma LeaseShown(s: State, t: int, id: string)
    requires Inv(s) && Holds(s, t, id)
    ensures Step(s, AskLease(t)) == s.(clock := Following(s.clock))
    ensures var reply := Lease(s, t).1;
            && reply.Holding? && reply.id == id && s.instances[id].expires.Some?
            && var until := s.instances[id].expires.value;
            && WholeSeconds(reply.expiresAt, until) && reply.secondsLeft >= 0
            && (reply.secondsLeft == 0 || WholeSeconds(reply.secondsLeft, until - Following(s.clock).now))
            && (until - Following(s.clock).now >= 1.0 ==> reply.secondsLeft > 0)
  {
    hide Inv;
    HolderTable(s, t, id);
    TruncSeconds(s.instances[id].expires.value);
    TruncSeconds(s.instances[id].expires.value - Following(s.clock).now);
  }

  /** A waiting team is told its place. */
  lemma LeaseWaits(s: State, t: int)
    requires Inv(s) && t in s.queue
    ensures Step(s, AskLease(t)) == s
    ensures var reply := Lease(s, t).1;
            reply.Waiting? && 1 <= reply.position <= |s.queue| && s.queue[reply.position - 1] == t
  {
    hide TeamHistory, CooldownKept, HasRoom, TermKept;
    assert Ready(s, t);
    LeaseFound(s, t);
  }

  /** The grants to t within the last hour already reach the limit. */
  ghost predicate HourFull(s: State, t: int, now: real) {
    var g := Grants(s.log, t);
    |g| >= s.config.rateMax && g[|g| - s.config.rateMax] > now - 3600.0
  }

  ghost predicate StillCooling(s: State, t: int, now: real) {
    RecordOf(s, t).releasedAt.Some? && now - RecordOf(s, t).releasedAt.value < s.config.cooldown as real
  }

  /** The reading at which a team without a lease is tested for its cooldown: a second one if it ever gave one back. */
  ghost function SecondReading(s: State, t: int): Clock {
    if RecordOf(s, t).releasedAt.Some? then Following(Following(s.clock)) else Following(s.clock)
  }

  /** s after the two tests: the clock has moved, and t's record has forgotten grants older than an hour. */
  ghost predicate AfterTests(s: State, t: int, r: State) {
    && r == s.(clock := r.clock, teams := r.teams) && t in r.teams
    && r.teams == s.teams[t := r.teams[t]]
    && r.teams[t] == RecordOf(s, t).(acquisitions := r.teams[t].acquisitions)
  }

  lemma RateOutcome(s: State, t: int)
    requires Inv(s)
    ensures RateVerdict(RateTested(s, t), t).Some? <==> HourFull(s, t, Following(s.clock).now)
    ensures RateTested(s, t).clock == Following(s.clock) && AfterTests(s, t, RateTested(s, t))
  {
    hide Inv, Prune, Grants, RateVerdict;
    RateTestedKeeps(s, t);
  }

  lemma CoolOutcome(s: State, t: int)
    requires Inv(s)
    ensures CoolVerdict(CoolTested(RateTested(s, t), t), t).Some? <==> StillCooling(s, t, SecondReading(s, t).now)
    ensures CoolTested(RateTested(s, t), t).clock == SecondReading(s, t)
    ensures AfterTests(s, t, CoolTested(RateTested(s, t), t))
  {
    hide Inv, Prune;
  }

  /** A team that neither holds nor waits and has used up its hour is refused. */
  lemma LeaseLimited(s: State, t: int)
    requires Inv(s) && HoldsNothing(s, t) && t !in s.queue && HourFull(s, t, Following(s.clock).now)
    ensures Lease(s, t).1.RateLimited?
    ensures AfterTests(s, t, Step(s, AskLease(t))) && Step(s, AskLease(t)).clock == Following(s.clock)
  {
    hide Inv, HourFull, AfterTests, RateVerdict, RateTested;
    NobodyHolds(s, t);
    RateOutcome(s, t);
  }

  /** A team with room in its hour whose last lease ended too recently is refused. */
  lemma LeaseCooling(s: State, t: int)
    requires Inv(s) && HoldsNothing(s, t) && t !in s.queue && !HourFull(s, t, Following(s.clock).now)
    requires StillCooling(s, t, SecondReading(s, t).now)
    ensures Lease(s, t).1.Cooling?
    ensures AfterTests(s, t, Step(s, AskLease(t))) && Step(s, AskLease(t)).clock == SecondReading(s, t)
  {
    hide Inv, HourFull, AfterTests, RateVerdict, RateTested, CoolVerdict, CoolTested, StillCooling, SecondReading;
    NobodyHolds(s, t);
    RateOutcome(s, t);
    CoolOutcome(s, t);
  }

  /** t passes both tests. */
  ghost predicate Eligible(s: State, t: int) {
    && HoldsNothing(s, t) && t !in s.queue && !HourFull(s, t, Following(s.clock).now)
    && !StillCooling(s, t, SecondReading(s, t).now)
  }

  lemma EligibleAdmits(s: State, t: int) returns (u: State)
    requires Inv(s) && Eligible(s, t)
    ensures Lease(s, t) == Admit(u, t) && Step(s, AskLease(t)) == Admit(u, t).0
    ensures Inv(u) && AfterTests(s, t, u) && u.clock == SecondReading(s, t)
  {
    hide Inv, HourFull, AfterTests, RateVerdict, RateTested, CoolVerdict, CoolTested, StillCooling;
    hide SecondReading, Admit, Ready;
    u := CoolTested(RateTested(s, t), t);
    NobodyHolds(s, t);
    RateOutcome(s, t);
    CoolOutcome(s, t);
    PassedTests(s, t);
  }

  /** Without an idle instance an eligible team joins the end of the queue. */
  lemma LeaseQueues(s: State, t: int)
    requires Inv(s) && Eligible(s, t) && NoneIdle(s)
    ensures var r := Step(s, AskLease(t));
            r.queue == s.queue + [t] && AfterTests(s, t, r.(queue := s.queue)) && r.clock == SecondReading(s, t)
    ensures Lease(s, t).1 == Waiting(|s.queue| + 1)
  {
    hide Inv, FreeIn, Eligible, SecondReading;
    assert t !in s.queue by { EligibleParts(s, t); }
    var u := EligibleAdmits(s, t);
    NoneIdleFree(s);
    LastPosition(s.queue, t);
  }

  lemma EligibleParts(s: State, t: int)
    requires Eligible(s, t)
    ensures t !in s.queue && HoldsNothing(s, t)
  {
  }

  lemma {:induction false} LastPosition(queue: seq<int>, t: int)
    requires t !in queue
    ensures Position(queue + [t], t) == |queue| + 1
  {
    if queue != [] {
      assert (queue + [t])[1..] == queue[1..] + [t];
      LastPosition(queue[1..], t);
    }
  }

  /** With an idle instance an eligible team without a flag is refused, after one more reading. */
  lemma LeaseRefused(s: State, t: int, k: nat)
    requires Inv(s) && Eligible(s, t) && FirstIdle(s, k) && t !in s.flags
    ensures var r := Step(s, AskLease(t));
            AfterTests(s, t, r) && r.clock == Following(SecondReading(s, t))
    ensures Lease(s, t).1 == NoFlag
  {
    hide Inv, FreeIn, Eligible, SecondReading;
    var u := EligibleAdmits(s, t);
    FirstIdleFree(s, k);
    assert Free(u) == Free(s);
    assert Free(u)[0] in Free(u);
  }

  /** With an idle instance and its flag pushed it is given the first idle instance of the order, for LEASE_SECONDS. */
  lemma LeaseGranted(s: State, t: int, k: nat)
    requires Inv(s) && Eligible(s, t) && FirstIdle(s, k) && t in s.flags
    ensures var r, id, last := Step(s, AskLease(t)), s.order[k], Following(SecondReading(s, t));
            var until := last.now + s.config.leaseSeconds as real;
            && r == s.(clock := last,
                       instances := s.instances[id := Instance(Some(t), Some(until), Leased)],
                       teams := r.teams,
                       log := s.log + [Granted(t, id, last.now)])
            && t in r.teams && r.teams == s.teams[t := r.teams[t]]
            && r.teams[t].instance == Some(id) && r.teams[t].leaseExpires == Some(until)
            && r.teams[t].releasedAt == RecordOf(s, t).releasedAt
            && r.teams[t].acquisitions != [] && r.teams[t].acquisitions[|r.teams[t].acquisitions| - 1] == last.now
    ensures var reply := Lease(s, t).1;
            && reply.Holding? && reply.id == s.order[k] && reply.secondsLeft == s.config.leaseSeconds
            && WholeSeconds(reply.expiresAt, Following(SecondReading(s, t)).now + s.config.leaseSeconds as real)
  {
    hide Inv, FreeIn, Eligible, SecondReading;
    var u := EligibleAdmits(s, t);
    FirstIdleFree(s, k);
    assert Free(u) == Free(s);
    assert Free(u)[0] in Free(u);
    TruncSeconds(Following(SecondReading(s, t)).now + s.config.leaseSeconds as real);
  }

  // ---------------------------------------------------------------------
  // Status and flags
  // ---------------------------------------------------------------------

  lemma FlagPushed(s: State, t: int)
    ensures Step(s, PushFlag(t)) == s.(flags := s.flags + {t})
  {
  }

  /** A status report changes nothing but the clock and, for a team that neither holds nor waits, what its record
      remembers of grants older than an hour. */
  lemma StatusReports(s: State, t: int)
    requires Inv(s)
    ensures (exists id :: Holds(s, t, id)) ==> Step(s, AskStatus(t)) == s.(clock := Following(s.clock))
    ensures t in s.queue ==> Step(s, AskStatus(t)) == s
    ensures HoldsNothing(s, t) && t !in s.queue ==>
              AfterTests(s, t, Step(s, AskStatus(t))) && Step(s, AskStatus(t)).clock == SecondReading(s, t)
  {
    hide Inv, AfterTests, SecondReading, CoolTested, RateTested, Ready;
    if id :| Holds(s, t, id) {
      HolderTable(s, t, id);
    }
    if t in s.queue {
      QueuedHoldsNothing(s, t);
    }
    if HoldsNothing(s, t) {
      NobodyHolds(s, t);
      CoolOutcome(s, t);
    }
  }

  lemma QueuedHoldsNothing(s: State, t: int)
    requires Inv(s) && t in s.queue
    ensures CurrentLease(s, t).None?
  {
    hide TeamHistory, CooldownKept, HasRoom, TermKept;
    assert Ready(s, t);
    LeaseFound(s, t);
  }

  // ---------------------------------------------------------------------
  // A booted instance
  // ---------------------------------------------------------------------

  ghost function WithIdle(s: State, id: string): State
    requires id in s.instances
  {
    s.(instances := s.instances[id := s.instances[id].(phase := Idle)])
  }

  /** The reading at which the head of the queue is given an instance. */
  ghost function PromotionReading(s: State): Clock
    requires s.queue != []
  {
    if RecordOf(s, s.queue[0]).releasedAt.Some? then Following(Following(s.clock)) else Following(s.clock)
  }

  /** s after its first idle instance, number k of the order, was offered to the head of the queue. */
  ghost function HeadPromoted(s: State, k: nat): State
    requires s.queue != [] && k < |s.order|
  {
    var t, id, last := s.queue[0], s.order[k], PromotionReading(s);
    var popped := s.(queue := s.queue[1..], clock := last);
    if t !in s.flags then popped
    else
      var was, until := RecordOf(s, t), last.now + s.config.leaseSeconds as real;
      popped.(instances := s.instances[id := Instance(Some(t), Some(until), Leased)],
              teams := s.teams[t := Team(Some(id), Some(until), was.releasedAt, was.acquisitions + [last.now])],
              log := s.log + [Granted(t, id, last.now)])
  }

  lemma NextPromoted(s: State, k: nat)
    requires Inv(s) && s.queue != [] && FirstIdle(s, k)
    ensures PromoteNext(s).state == HeadPromoted(s, k)
  {
    hide Inv, FreeIn, PromoteTo, Ready, CoolVerdict;
    FirstIdleFree(s, k);
    assert Free(s)[0] in Free(s);
    HeadIsServed(s, Free(s)[0]);
  }

  /** An instance that finished booting is idle, and the head of the queue, if any, is offered the first idle one. */
  lemma BootIdles(s: State, id: string)
    requires Inv(s) && id in s.instances && s.instances[id].phase == Booting
    ensures s.queue == [] ==> Step(s, Booted(id)) == WithIdle(s, id)
    ensures s.queue != [] ==>
              forall k: nat :: FirstIdle(WithIdle(s, id), k) ==> Step(s, Booted(id)) == HeadPromoted(WithIdle(s, id), k)
  {
    hide Inv, FreeIn, PromoteTo, HeadPromoted;
    BootKeeps(s, id);
    if s.queue != [] {
      forall k: nat | FirstIdle(WithIdle(s, id), k)
        ensures Step(s, Booted(id)) == HeadPromoted(WithIdle(s, id), k)
      {
        NextPromoted(WithIdle(s, id), k);
      }
    }
  }

  /** There is a first idle one, so BootIdles covers every boot. */
  lemma SomeFirstIdle(s: State, id: string) returns (k: nat)
    requires Inv(s) && id in s.instances && s.instances[id].phase == Idle
    ensures FirstIdle(s, k)
  {
    assert Shape(s);
    hide Inv;
    var i :| 0 <= i < |s.order| && s.order[i] == id;
    k := 0;
    while !(s.order[k] in s.instances && s.instances[s.order[k]].phase == Idle)
      invariant k <= i
      invariant forall j :: 0 <= j < k && s.order[j] in s.instances ==> s.instances[s.order[j]].phase != Idle
      decreases i - k
    {
      k := k + 1;
    }
  }

  lemma BootIgnored(s: State, id: string)
    requires id !in s.instances || s.instances[id].phase != Booting
    ensures Step(s, Booted(id)) == s
  {
  }

  // ---------------------------------------------------------------------
  // A reaper tick
  // ---------------------------------------------------------------------

  /** The lease of the instance is over at now. */
  ghost predicate Over(i: Instance, now: real) {
    i.team.Some? && i.expires.Some? && i.expires.value <= now
  }

  lemma OverIsExpired(s: State, now: real, id: string)
    requires Inv(s) && id in s.instances
    ensures IsExpired(s.instances[id], now) <==> Over(s.instances[id], now)
  {
    hide TeamHistory, CooldownKept, Queue;
  }

  lemma {:induction false} OthersUntouched(s: State, t: int)
    requires Inv(s) && t !in s.queue
    ensures TeamOf(PromoteAll(s).state, t) == TeamOf(s, t)
    decreases |s.queue|
  {
    hide Inv, FreeIn, PromoteTo, FirstIdle, CoolVerdict, Ready;
    if Free(s) != [] && s.queue != [] {
      assert Free(s)[0] in Free(s);
      HeadIsServed(s, Free(s)[0]);
      PromoteNextKeeps(s);
      assert s.queue[0] != t;
      if PromoteNext(s).ok {
        OthersUntouched(PromoteNext(s).state, t);
      }
    }
  }

  /** Released: no lease, a release time, and an entry in the history. */
  ghost predicate ReleasedFrom(r: State, t: int, id: string, since: real) {
    && TeamOf(r, t).instance.None? && TeamOf(r, t).leaseExpires.None?
    && TeamOf(r, t).releasedAt.Some? && TeamOf(r, t).releasedAt.value >= since
    && Freed(t, id, TeamOf(r, t).releasedAt.value) in r.log
  }

  lemma ReclaimReleases(s: State, t: int, id: string)
    requires Inv(s) && Holds(s, t, id)
    ensures ReleasedFrom(Reclaim(s, t), t, id, s.clock.now)
  {
    hide Inv;
    HolderTable(s, t, id);
    var r := Reclaim(s, t);
    assert r.log[|s.log|] == Freed(t, id, r.clock.now);
  }

  lemma ReclaimOther(s: State, u: int, t: int, id: string, since: real)
    requires Inv(s) && ReleasedFrom(s, t, id, since)
    ensures ReleasedFrom(Reclaim(s, u), t, id, since)
  {
    hide Inv;
    if TeamOf(s, u).instance.Some? && TeamOf(s, u).instance.value in s.instances {
      assert u != t;
      assert s.log <= Reclaim(s, u).log;
    }
  }

  lemma ReclaimHolder(s: State, u: int, t: int, id: string)
    requires Inv(s) && Holds(s, t, id) && u != t
    ensures Holds(Reclaim(s, u), t, id) && Reclaim(s, u).clock.now >= s.clock.now
  {
    hide TeamHistory, CooldownKept, Queue, Terms;
    assert TeamOf(s, t).instance == Some(id);
  }

  lemma {:induction false} ReclaimAllReleases(s: State, teams: seq<int>, t: int, id: string, since: real)
    requires Inv(s) && since <= s.clock.now
    requires ReleasedFrom(s, t, id, since) || (Holds(s, t, id) && t in teams)
    ensures ReleasedFrom(ReclaimAll(s, teams), t, id, since)
    decreases |teams|
  {
    hide Inv, Reclaim, ReleasedFrom, Holds;
    if teams != [] {
      var r := Reclaim(s, teams[0]);
      ReclaimKeeps(s, teams[0]);
      ReclaimTime(s, teams[0]);
      assert teams == [teams[0]] + teams[1..];
      if ReleasedFrom(s, t, id, since) {
        ReclaimOther(s, teams[0], t, id, since);
      } else if teams[0] == t {
        ReclaimReleases(s, t, id);
        ReleasedSooner(r, t, id, s.clock.now, since);
      } else {
        ReclaimHolder(s, teams[0], t, id);
      }
      ReclaimAllReleases(r, teams[1..], t, id, since);
    }
  }

  lemma ReclaimTime(s: State, t: int)
    ensures Reclaim(s, t).clock.now >= s.clock.now
  {
  }

  lemma ReleasedSooner(r: State, t: int, id: string, was: real, since: real)
    requires ReleasedFrom(r, t, id, was) && since <= was
    ensures ReleasedFrom(r, t, id, since)
  {
  }

  /** A tick sends every instance whose lease is over to reboot and frees its team; other busy or booting instances
      it leaves alone. */
  lemma TickEffect(s: State, now: real, id: string)
    requires Inv(s) && id in s.instances
    ensures var r := Step(s, ReaperTick(now)); var i := s.instances[id];
            && id in r.instances
            && (Over(i, now) ==> r.instances[id] == Instance(None, None, Booting)
                                 && ReleasedFrom(r, i.team.value, id, s.clock.now))
            && (i.phase != Idle && !Over(i, now) ==> r.instances[id] == i)
  {
    hide Inv, FreeIn, PromoteAll, ReclaimAll, ExpiredIn, ReleasedFrom, Over, Queue, Linked;
    var teams := ExpiredIn(s.order, s.instances, now);
    var m := ReclaimAll(s, teams);
    OverIsExpired(s, now, id);
    ReaperReleases(s, now, id);
    ReclaimAllKeeps(s, teams);
    PromoteAllExact(m);
    IdleIsFree(m, id);
    assert id !in Free(m) || m.instances[id].phase == Idle;
    var n := FlaggedPrefix(m.queue, m.flags, |Free(m)|);
    assert forall x :: x in Free(m)[..n] ==> x in Free(m);
    if Over(s.instances[id], now) {
      TickReleases(s, now, id);
    }
  }

  lemma TickReleases(s: State, now: real, id: string)
    requires Inv(s) && id in s.instances && Over(s.instances[id], now)
    ensures ReleasedFrom(Step(s, ReaperTick(now)), s.instances[id].team.value, id, s.clock.now)
  {
    hide Inv, FreeIn, PromoteAll, ReclaimAll, ExpiredIn;
    var t := s.instances[id].team.value;
    var teams := ExpiredIn(s.order, s.instances, now);
    var m := ReclaimAll(s, teams);
    OverIsExpired(s, now, id);
    ShapeOf(s);
    ExpiredTeams(s.order, s.instances, now, t);
    HolderTable(s, t, id);
    ReclaimAllReleases(s, teams, t, id, s.clock.now);
    ReclaimAllKeeps(s, teams);
    OthersUntouched(m, t);
    PromoteAllExact(m);
    assert m.log <= PromoteAll(m).state.log;
  }

  /** The idle instances go to the waiting teams, both in order, up to the first team without a flag, which is
      dropped. */
  lemma TickServes(s: State, now: real, j: nat)
    requires Inv(s) && j < |Free(s)|
    ensures var r, n := Step(s, ReaperTick(now)), FlaggedPrefix(s.queue, s.flags, |Free(s)|);
            && Free(s)[j] in s.instances && Free(s)[j] in r.instances
            && (j < n ==> r.instances[Free(s)[j]].team == Some(s.queue[j]) && r.instances[Free(s)[j]].phase == Leased)
            && (j >= n ==> r.instances[Free(s)[j]] == s.instances[Free(s)[j]])
            && r.queue == if n < |s.queue| && n < |Free(s)| then s.queue[n + 1..] else s.queue[n..]
  {
    hide Inv, FreeIn, Step, ExpiredIn, ReclaimAll, FlaggedPrefix;
    var m := ReclaimAll(s, ExpiredIn(s.order, s.instances, now));
    var n := FlaggedPrefix(s.queue, s.flags, |Free(s)|);
    var id := Free(s)[j];
    assert id in Free(s);
    TickPromotes(s, now);
    IdleSpared(s, now, id);
    if j < n {
      LeasedPhase(Step(s, ReaperTick(now)), id);
    } else {
      DistinctFree(s);
      assert id !in Free(m)[..n];
    }
  }

  lemma TickPromotes(s: State, now: real)
    requires Inv(s)
    ensures var m, r := ReclaimAll(s, ExpiredIn(s.order, s.instances, now)), Step(s, ReaperTick(now));
            var n := FlaggedPrefix(s.queue, s.flags, |Free(s)|);
            && Inv(r) && Promoted(m, r, n) && Free(m) == Free(s) && m.queue == s.queue
            && r.queue == if n < |s.queue| && n < |Free(s)| then s.queue[n + 1..] else s.queue[n..]
  {
    hide Inv, FreeIn, Free, PromoteAll, ReclaimAll, ExpiredIn, FlaggedPrefix, Promoted;
    var teams := ExpiredIn(s.order, s.instances, now);
    ReclaimAllKeeps(s, teams);
    ReclaimAllFree(s, teams);
    PromoteAllExact(ReclaimAll(s, teams));
    PromoteAllKeeps(ReclaimAll(s, teams));
  }

  /** Releasing what expired does not touch an idle instance. */
  lemma IdleSpared(s: State, now: real, id: string)
    requires Inv(s) && id in Free(s)
    ensures var m := ReclaimAll(s, ExpiredIn(s.order, s.instances, now));
            id in s.instances && id in m.instances && m.instances[id] == s.instances[id]
  {
    hide Inv, FreeIn, ExpiredIn, ReclaimAll;
    ReaperReleases(s, now, id);
  }

  lemma LeasedPhase(s: State, id: string)
    requires Inv(s) && id in s.instances && s.instances[id].team.Some?
    ensures s.instances[id].phase == Leased
  {
  }
}
