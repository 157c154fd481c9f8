/**
 What a team can rely on over a whole run of the lease scheduler: the hourly
 limit and the cooldown are never exceeded, the advertised waiting time is
 enough, and the reaper ends exactly the leases that ran out.
 */
module PoolLimits {
  import opened Options
  import opened PoolModel
  import opened PoolSafety
  import opened PoolRuns
  import opened PoolQuota

  // ---------------------------------------------------------------------
  // The hourly limit
  // ---------------------------------------------------------------------

  /** How many of the times fall into the half-open hour that starts at x. */
  ghost function InHour(times: seq<real>, x: real): nat
    decreases |times|
  {
    if times == [] then 0
    else
      var last := times[|times| - 1];
      InHour(times[..|times| - 1], x) + (if x <= last < x + 3600.0 then 1 else 0)
  }

  lemma {:induction false} InHourBound(times: seq<real>, x: real, k: nat, n: nat)
    requires forall i :: 0 <= i < |times| && x <= times[i] < x + WINDOW ==> k <= i < k + n
    ensures InHour(times, x) <= (if |times| <= k then 0 else if |times| <= k + n then |times| - k else n)
    decreases |times|
  {
    if times != [] {
      InHourBound(times[..|times| - 1], x, k, n);
    }
  }

  lemma {:induction false} FirstFrom(times: seq<real>, x: real) returns (k: nat)
    requires Ascending(times)
    ensures k <= |times|
    ensures forall i :: 0 <= i < |times| ==> (times[i] >= x <==> i >= k)
    decreases |times|
  {
    if times == [] || times[|times| - 1] < x {
      k := |times|;
    } else {
      k := FirstFrom(times[..|times| - 1], x);
      assert forall i :: 0 <= i < |times| - 1 ==> times[i] == times[..|times| - 1][i];
    }
  }

  lemma SpacedInHour(times: seq<real>, rateMax: int, x: real)
    requires Ascending(times) && Spaced(times, rateMax) && rateMax >= 1
    ensures InHour(times, x) <= rateMax
  {
    var k := FirstFrom(times, x);
    forall i | 0 <= i < |times| && x <= times[i] < x + WINDOW
      ensures k <= i < k + rateMax
    {
      assert k + rateMax < |times| ==> times[k] + WINDOW <= times[k + rateMax];
    }
    InHourBound(times, x, k, rateMax);
  }

  /** No team is granted more than rateMax leases within any hour of any run, promotions included. */
  lemma HourlyLimit(config: Config, order: seq<string>, clock: Clock, events: seq<Event>, t: int, x: real)
    ensures InHour(Grants(Run(Initial(config, order, clock), events).log, t), x) <= config.rateMax
  {
    hide Quota, Step, Spaced, Ascending, Grants;
    var s := Initial(config, order, clock);
    QuotaStart(config, order, clock);
    QuotaRun(s, events);
    RunConfig(s, events);
    var r := Run(s, events);
    TimesOf(r, t);
    SpacedInHour(Grants(r.log, t), config.rateMax, x);
  }

  lemma TimesOf(s: State, t: int)
    requires Quota(s)
    ensures Ascending(Grants(s.log, t)) && Spaced(Grants(s.log, t), s.config.rateMax)
  {
    assert TeamHistory(s.config, s.log, s.clock, TeamOf(s, t), t);
  }

  lemma StepConfig(s: State, e: Event)
    ensures Step(s, e).config == s.config
  {
    hide PromoteAll, PromoteNext, FreeIn, CurrentLease, ReclaimAll, CoolVerdict, RateVerdict;
  }

  lemma {:induction false} RunConfig(s: State, events: seq<Event>)
    ensures Run(s, events).config == s.config
    decreases |events|
  {
    hide Step;
    if events != [] {
      StepConfig(s, events[0]);
      RunConfig(Step(s, events[0]), events[1..]);
    }
  }

  // ---------------------------------------------------------------------
  // The cooldown
  // ---------------------------------------------------------------------

  /** Between the end of a lease and the team's next one, the cooldown passes. */
  lemma CooldownHolds(config: Config, order: seq<string>, clock: Clock, events: seq<Event>, i: nat, j: nat)
    requires var log := Run(Initial(config, order, clock), events).log;
             i < j < |log| && log[i].Freed? && log[j].Granted? && log[i].team == log[j].team
    ensures var log := Run(Initial(config, order, clock), events).log;
            log[j].at - log[i].at >= config.cooldown as real
  {
    hide Quota, Step;
    var s := Initial(config, order, clock);
    QuotaStart(config, order, clock);
    QuotaRun(s, events);
    RunConfig(s, events);
    CooldownOf(Run(s, events));
  }

  lemma CooldownOf(s: State)
    requires Quota(s)
    ensures CooldownKept(s.log, s.config.cooldown)
  {
  }

  // ---------------------------------------------------------------------
  // The advertised waiting times
  // ---------------------------------------------------------------------

  /** A whole number of seconds strictly above the exact wait, and at most one second above it. */
  lemma WaitCovers(exact: real)
    requires exact >= 0.0
    ensures exact < (Trunc(exact) + 1) as real <= exact + 1.0
  {
  }

  lemma FullHistory(config: Config, log: seq<Entry>, clock: Clock, ts: Team, t: int)
    requires TeamHistory(config, log, clock, ts, t) && |ts.acquisitions| == config.rateMax
    ensures |Grants(log, t)| >= config.rateMax
    ensures ts.acquisitions[0] == Grants(log, t)[|Grants(log, t)| - config.rateMax]
  {
  }

  lemma RoomAt(g: seq<real>, rateMax: int, now: real)
    requires |g| >= rateMax >= 1
    ensures HasRoom(g, rateMax, now) <==> g[|g| - rateMax] + WINDOW <= now
  {
  }

  lemma AdmitReply(s: State, t: int)
    ensures !Admit(s, t).1.RateLimited? && !Admit(s, t).1.Cooling?
  {
    hide FreeIn, Assign;
  }

  lemma RefusedByRate(s: State, t: int)
    requires Lease(s, t).1.RateLimited?
    ensures Lease(s, t).0 == RateTested(s, t)
    ensures RateVerdict(RateTested(s, t), t) == Some(Lease(s, t).1.retryAfter)
  {
    hide CurrentLease, RateVerdict, CoolVerdict, Admit, Prune;
    AdmitReply(CoolTested(RateTested(s, t), t), t);
  }

  lemma RefusedByCooldown(s: State, t: int)
    requires Lease(s, t).1.Cooling?
    ensures Lease(s, t).0 == CoolTested(RateTested(s, t), t)
    ensures CoolVerdict(CoolTested(RateTested(s, t), t), t) == Some(Lease(s, t).1.retryAfter)
  {
    hide CurrentLease, RateVerdict, CoolVerdict, Admit, Prune;
    AdmitReply(CoolTested(RateTested(s, t), t), t);
  }

  /** A team refused by the rate limit, and granted nothing in between, passes the rate test from exactly the
      moment its oldest counted grant is an hour old; the seconds it is told reach that moment, by at most one. */
  lemma RetryAfterSuffices(s: State, t: int, later: State)
    requires Quota(s) && Lease(s, t).1.RateLimited? && Quota(later)
    requires later.config == s.config && Grants(later.log, t) == Grants(s.log, t)
    ensures TeamOf(Lease(s, t).0, t).acquisitions != []
    ensures var refusedAt := Lease(s, t).0.clock.now;
            var freeAt := TeamOf(Lease(s, t).0, t).acquisitions[0] + WINDOW;
            var wait := Lease(s, t).1.retryAfter;
            && freeAt < refusedAt + wait as real <= freeAt + 1.0 && wait >= 1
            && (RateVerdict(RateTested(later, t), t).None? <==> freeAt <= Read(later).clock.now)
  {
    hide Quota, TeamHistory, Grants, HasRoom, Lease, Prune, Trunc;
    RefusedByRate(s, t);
    var rated := RateTested(s, t);
    QuotaRateTested(s, t);
    FullHistory(rated.config, rated.log, rated.clock, TeamOf(rated, t), t);
    var g := Grants(s.log, t);
    var oldest := g[|g| - s.config.rateMax];
    RoomAt(g, s.config.rateMax, Read(s).clock.now);
    RoomAt(g, s.config.rateMax, Read(later).clock.now);
    WaitCovers(oldest + WINDOW - rated.clock.now);
    QuotaRateTested(later, t);
  }

  /** The same for a team that is still cooling down. */
  lemma CooldownWaitSuffices(s: State, t: int, later: State)
    requires Lease(s, t).1.Cooling?
    requires later.config == s.config && TeamOf(later, t).releasedAt == TeamOf(s, t).releasedAt
    ensures TeamOf(s, t).releasedAt.Some?
    ensures var refusedAt := Lease(s, t).0.clock.now;
            var freeAt := TeamOf(s, t).releasedAt.value + s.config.cooldown as real;
            var wait := Lease(s, t).1.retryAfter;
            && freeAt < refusedAt + wait as real <= freeAt + 1.0 && wait >= 1
            && (CoolVerdict(CoolTested(later, t), t).None? <==> freeAt <= CoolTested(later, t).clock.now)
  {
    hide Lease, Prune, Trunc;
    RefusedByCooldown(s, t);
    var cooled := CoolTested(RateTested(s, t), t);
    WaitCovers(s.config.cooldown as real - (cooled.clock.now - TeamOf(s, t).releasedAt.value));
  }

  // ---------------------------------------------------------------------
  // The length of a lease
  // ---------------------------------------------------------------------

  lemma TermOf(s: State, id: string)
    requires Inv(s) && id in s.instances && s.instances[id].team.Some?
    ensures TermKept(s.config, s.log, s.instances[id].team.value, s.instances[id].expires)
  {
  }

  /** In every run, a lease in force expires LEASE_SECONDS after the team's latest grant. */
  lemma LeaseTerm(config: Config, order: seq<string>, clock: Clock, events: seq<Event>, id: string)
    requires Distinct(order) && "" !in order
    requires var r := Run(Initial(config, order, clock), events); id in r.instances && r.instances[id].team.Some?
    ensures var r := Run(Initial(config, order, clock), events);
            var granted := Grants(r.log, r.instances[id].team.value);
            granted != [] && r.instances[id].expires == Some(granted[|granted| - 1] + config.leaseSeconds as real)
  {
    hide Inv, Step, Grants;
    InitialInv(config, order, clock);
    RunKeeps(Initial(config, order, clock), events);
    RunConfig(Initial(config, order, clock), events);
    TermOf(Run(Initial(config, order, clock), events), id);
  }

  // ---------------------------------------------------------------------
  // The reaper
  // ---------------------------------------------------------------------

  const REBOOTED := Instance(None, None, Booting)

  lemma {:induction false} ExpiredTeams(order: seq<string>, instances: map<string, Instance>, now: real, t: int)
    ensures t in ExpiredIn(order, instances, now) <==>
            exists id :: id in order && id in instances && IsExpired(instances[id], now)
                         && instances[id].team.value == t
  {
    if order != [] {
      ExpiredTeams(order[1..], instances, now, t);
      assert order == [order[0]] + order[1..];
    }
  }

  lemma ReclaimExact(s: State, t: int, id: string)
    requires Inv(s) && id in s.instances
    ensures id in Reclaim(s, t).instances
    ensures Reclaim(s, t).instances[id] == if s.instances[id].team == Some(t) then REBOOTED else s.instances[id]
  {
    hide TeamHistory, CooldownKept, Queue;
  }

  lemma {:induction false} ReclaimAllExact(s: State, teams: seq<int>, id: string)
    requires Inv(s) && id in s.instances
    ensures id in ReclaimAll(s, teams).instances
    ensures ReclaimAll(s, teams).instances[id]
            == if s.instances[id].team.Some? && s.instances[id].team.value in teams then REBOOTED else s.instances[id]
    decreases |teams|
  {
    hide Inv, Reclaim;
    if teams != [] {
      ReclaimExact(s, teams[0], id);
      ReclaimKeeps(s, teams[0]);
      ReclaimAllExact(Reclaim(s, teams[0]), teams[1..], id);
      assert teams == [teams[0]] + teams[1..];
    }
  }

  lemma InvParts(s: State)
    requires Inv(s)
    ensures Shape(s) && Linked(s) && Lifecycles(s)
  {
  }

  /** Releasing the expired teams reboots exactly the instances whose lease ran out. */
  lemma ReaperReleases(s: State, now: real, id: string)
    requires Inv(s) && id in s.instances
    ensures var r := ReclaimAll(s, ExpiredIn(s.order, s.instances, now));
            && id in r.instances
            && r.instances[id] == if IsExpired(s.instances[id], now) then REBOOTED else s.instances[id]
  {
    hide Inv, ExpiredIn;
    InvParts(s);
    var teams := ExpiredIn(s.order, s.instances, now);
    ReclaimAllExact(s, teams, id);
    if s.instances[id].team.Some? {
      var t := s.instances[id].team.value;
      ExpiredTeams(s.order, s.instances, now, t);
      if t in teams {
        var x :| x in s.order && x in s.instances && IsExpired(s.instances[x], now) && s.instances[x].team.value == t;
        assert TeamOf(s, t).instance == Some(x);
        assert TeamOf(s, t).instance == Some(id);
      }
    }
  }
}
