/**
 The scheduler itself, with its mutable tables, queue and clock. Each operation
 is proved to take the pool from its old state to the state the step functions
 of PoolModel give, and so inherits everything proved about runs of those steps.
 */
module Pool {
  import opened Options
  import opened PoolModel
  import opened PoolSafety
  import opened PoolRuns

  class LeasePool {
    const config: Config
    var order: seq<string>
    var instances: map<string, Instance>
    var teams: map<int, Team>
    var queue: seq<int>
    var flags: set<int>
    var clock: Clock
    ghost var log: seq<Entry>

    ghost function Snapshot(): State
      reads this
    {
      State(config, order, instances, teams, queue, flags, clock, log)
    }

    /** Loads the configured ids. A repeated id replaces the entry and keeps its first place. */
    constructor (config: Config, ids: seq<string>, clock: Clock)
      ensures Snapshot() == Initial(config, FirstOccurrences(ids), clock)
      ensures Inv(Snapshot()) <==> "" !in ids
    {
      this.config := config;
      this.clock := clock;
      order := [];
      instances := map[];
      teams := map[];
      queue := [];
      flags := {};
      log := [];
      new;
      assert FirstOccurrences(ids[..0]) == [];
      assert AllBooting([]) == map[];
      hide Inv, FirstOccurrences, Distinct, AllBooting;
      var i := 0;
      while i < |ids|
        invariant 0 <= i <= |ids| && order == FirstOccurrences(ids[..i])
        invariant instances == AllBooting(order)
        invariant teams == map[] && queue == [] && flags == {} && log == [] && this.clock == clock
      {
        FirstOccurrencesNext(ids, i);
        OneMoreBooting(order, ids[i]);
        if ids[i] !in instances {
          order := order + [ids[i]];
        }
        instances := instances[ids[i] := Instance(None, None, Booting)];
        i := i + 1;
      }
      assert ids[..i] == ids;
      FirstOccurrencesDistinct(ids);
      InitialInv(config, order, clock);
    }

    method ReadClock() returns (now: real)
      modifies this`clock
      ensures Snapshot() == Read(old(Snapshot())) && now == clock.now
    {
      clock := Tick(clock);
      now := clock.now;
    }

    function Record(t: int): (ts: Team)
      reads this
      ensures ts == TeamOf(Snapshot(), t)
    {
      if t in teams then teams[t] else NEWCOMER
    }

    method FindLease(t: int) returns (held: Option<string>)
      ensures held == CurrentLease(Snapshot(), t)
    {
      var id := Record(t).instance;
      if id.Some? && id.value != "" && id.value in instances && instances[id.value].team == Some(t) {
        return id;
      }
      return None;
    }

    method QueuePosition(t: int) returns (pos: nat)
      ensures pos == Position(queue, t)
    {
      var i := 0;
      while i < |queue|
        invariant 0 <= i <= |queue| && t !in queue[..i]
        invariant Position(queue, t) == if t in queue[i..] then i + Position(queue[i..], t) else 0
      {
        assert queue[i..][1..] == queue[i + 1..];
        if queue[i] == t {
          return i + 1;
        }
        assert queue[..i + 1] == queue[..i] + [queue[i]];
        i := i + 1;
      }
      return 0;
    }

    static method Recent(times: seq<real>, start: real) returns (kept: seq<real>)
      ensures kept == Prune(times, start)
    {
      kept := [];
      var i := 0;
      while i < |times|
        invariant 0 <= i <= |times|
        invariant Prune(times, start) == kept + Prune(times[i..], start)
      {
        assert times[i..][1..] == times[i + 1..];
        if times[i] > start {
          kept := kept + [times[i]];
        }
        i := i + 1;
      }
      assert kept == Prune(times, start);
    }

    method TestRate(t: int) returns (limited: bool, retryAfter: int)
      modifies this`clock, this`teams
      ensures Snapshot() == RateTested(old(Snapshot()), t)
      ensures limited <==> RateVerdict(Snapshot(), t).Some?
      ensures limited ==> RateVerdict(Snapshot(), t) == Some(retryAfter)
      ensures !limited ==> retryAfter == 0
    {
      var now := ReadClock();
      var ts := Record(t);
      var kept := Recent(ts.acquisitions, now - WINDOW);
      teams := teams[t := ts.(acquisitions := kept)];
      if |kept| >= config.rateMax {
        return true, Trunc(kept[0] + WINDOW - now) + 1;
      }
      return false, 0;
    }

    method TestCooldown(t: int) returns (cooling: bool, left: int)
      modifies this`clock
      ensures Snapshot() == CoolTested(old(Snapshot()), t)
      ensures cooling <==> CoolVerdict(Snapshot(), t).Some?
      ensures cooling ==> CoolVerdict(Snapshot(), t) == Some(left)
      ensures !cooling ==> left == 0
    {
      var releasedAt := Record(t).releasedAt;
      if releasedAt.None? {
        return false, 0;
      }
      var now := ReadClock();
      var elapsed := now - releasedAt.value;
      if elapsed < config.cooldown as real {
        return true, Trunc(config.cooldown as real - elapsed) + 1;
      }
      return false, 0;
    }

    /** Not ok is the exception raised when no flag was pushed for the team. */
    method DoAssign(t: int, id: string) returns (ok: bool)
      requires id in instances
      modifies this`clock, this`instances, this`teams, this`log
      ensures Stepped(Snapshot(), ok) == Assign(old(Snapshot()), t, id)
    {
      var now := ReadClock();
      if t !in flags {
        return false;
      }
      var ts := Record(t);
      instances := instances[id := Instance(Some(t), Some(now + config.leaseSeconds as real), Leased)];
      ts := ts.(instance := Some(id), leaseExpires := instances[id].expires);
      ts := ts.(acquisitions := ts.acquisitions + [now]);
      teams := teams[t := ts];
      log := log + [Granted(t, id, now)];
      return true;
    }

    /** Takes the instance away from the team; its lifecycle is left to the caller. */
    method DoRelease(t: int) returns (freed: Option<string>)
      modifies this`clock, this`instances, this`teams, this`log
      ensures instances.Keys == old(instances.Keys)
      ensures freed.None? ==> Snapshot() == old(Snapshot()) && Reclaim(old(Snapshot()), t) == old(Snapshot())
      ensures freed.Some? ==>
                && freed.value in instances
                && Snapshot().(instances := instances[freed.value := instances[freed.value].(phase := Booting)])
                   == Reclaim(old(Snapshot()), t)
    {
      var ts := Record(t);
      if ts.instance.None? {
        return None;
      }
      var id := ts.instance.value;
      if id !in instances {
        return None;
      }
      instances := instances[id := instances[id].(team := None, expires := None)];
      var now := ReadClock();
      teams := teams[t := ts.(instance := None, leaseExpires := None, releasedAt := Some(now))];
      log := log + [Freed(t, id, now)];
      return Some(id);
    }

    method PromoteNext() returns (ok: bool)
      requires forall id :: id in order ==> id in instances
      modifies this
      ensures Stepped(Snapshot(), ok) == PoolModel.PromoteNext(old(Snapshot()))
      ensures forall id :: id in order ==> id in instances
    {
      var free := FreeIn(order, instances);
      if free == [] || queue == [] {
        return true;
      }
      assert free[0] in free;
      var id := free[0];
      ghost var start := Snapshot();
      while queue != []
        invariant id in instances && instances == old(instances) && order == old(order)
        invariant PromoteTo(Snapshot(), id) == PromoteTo(start, id)
        decreases |queue|
      {
        var t := queue[0];
        queue := queue[1..];
        var ts := Record(t);
        if ts.instance.Some? {
          continue;
        }
        var cooling, _ := TestCooldown(t);
        if cooling {
          continue;
        }
        ok := DoAssign(t, id);
        return;
      }
      return true;
    }

    method PlaceTeam(t: int) returns (reply: Reply)
      modifies this
      ensures (Snapshot(), reply) == Admit(old(Snapshot()), t)
    {
      var free := FreeIn(order, instances);
      if free != [] {
        assert free[0] in free;
        var ok := DoAssign(t, free[0]);
        if !ok {
          return NoFlag;
        }
        return Holding(free[0], Trunc(instances[free[0]].expires.value), config.leaseSeconds);
      }
      queue := queue + [t];
      var pos := QueuePosition(t);
      return Waiting(pos);
    }

    method Lease(t: int) returns (reply: Reply)
      modifies this
      ensures (Snapshot(), reply) == PoolModel.Lease(old(Snapshot()), t)
    {
      hide Admit, RateVerdict, CoolVerdict, Prune, FreeIn;
      var held := FindLease(t);
      if held.Some? {
        var expires := instances[held.value].expires;
        var until := match expires case Some(e) => e case None => 0.0;
        var now := ReadClock();
        var left := Trunc(until - now);
        return Holding(held.value, Trunc(until), if left > 0 then left else 0);
      }
      var pos := QueuePosition(t);
      if pos > 0 {
        return Waiting(pos);
      }
      var limited, retryAfter := TestRate(t);
      if limited {
        return RateLimited(retryAfter);
      }
      var cooling, left := TestCooldown(t);
      if cooling {
        return Cooling(left);
      }
      reply := PlaceTeam(t);
    }

    method Release(t: int) returns (released: bool)
      modifies this
      ensures Snapshot() == PoolModel.Release(old(Snapshot()), t)
      ensures released <==> CurrentLease(old(Snapshot()), t).Some?
    {
      var held := FindLease(t);
      if held.None? {
        queue := Without(queue, t);
        return false;
      }
      var freed := DoRelease(t);
      if freed.Some? {
        instances := instances[freed.value := instances[freed.value].(phase := Booting)];
      }
      return true;
    }

    /** A status report: the lease or the place in the queue, otherwise both refusal tests. */
    method Status(t: int) returns (held: Option<string>, pos: nat, limited: bool, cooling: bool, retryAfter: int)
      modifies this
      ensures Snapshot() == PoolModel.Status(old(Snapshot()), t)
      ensures held == CurrentLease(old(Snapshot()), t)
      ensures held.None? ==> pos == Position(old(queue), t)
      ensures held.None? && pos == 0 ==>
                && (limited <==> RateVerdict(RateTested(old(Snapshot()), t), t).Some?)
                && (cooling <==> CoolVerdict(Snapshot(), t).Some?)
                && (limited ==> RateVerdict(RateTested(old(Snapshot()), t), t) == Some(retryAfter))
                && (!limited && cooling ==> CoolVerdict(Snapshot(), t) == Some(retryAfter))
    {
      pos, limited, cooling, retryAfter := 0, false, false, 0;
      held := FindLease(t);
      if held.Some? {
        var _ := ReadClock();
        return;
      }
      pos := QueuePosition(t);
      if pos > 0 {
        return;
      }
      var left: int;
      limited, retryAfter := TestRate(t);
      cooling, left := TestCooldown(t);
      if !limited && cooling {
        retryAfter := left;
      }
    }

    method ExpiredTeams(now: real) returns (expired: seq<int>)
      ensures expired == ExpiredIn(order, instances, now)
    {
      expired := [];
      var i := 0;
      while i < |order|
        invariant 0 <= i <= |order|
        invariant ExpiredIn(order, instances, now) == expired + ExpiredIn(order[i..], instances, now)
      {
        ghost var later := ExpiredIn(order[i + 1..], instances, now);
        assert order[i..][1..] == order[i + 1..];
        if order[i] in instances && IsExpired(instances[order[i]], now) {
          var team := instances[order[i]].team.value;
          assert ExpiredIn(order[i..], instances, now) == [team] + later;
          assert expired + ([team] + later) == (expired + [team]) + later;
          expired := expired + [team];
        } else {
          assert ExpiredIn(order[i..], instances, now) == later;
        }
        i := i + 1;
      }
    }

    method ReleaseExpired(now: real)
      requires forall id :: id in order ==> id in instances
      modifies this
      ensures Snapshot() == ReclaimAll(old(Snapshot()), ExpiredIn(old(order), old(instances), now))
      ensures forall id :: id in order ==> id in instances
    {
      hide Reclaim, ExpiredIn;
      ghost var start := Snapshot();
      var expired := ExpiredTeams(now);
      var i := 0;
      while i < |expired|
        invariant 0 <= i <= |expired|
        invariant ReclaimAll(start, expired) == ReclaimAll(Snapshot(), expired[i..])
        invariant forall id :: id in order ==> id in instances
      {
        ghost var before := Snapshot();
        assert expired[i..][1..] == expired[i + 1..];
        var freed := DoRelease(expired[i]);
        if freed.Some? {
          instances := instances[freed.value := instances[freed.value].(phase := Booting)];
        }
        assert Snapshot() == Reclaim(before, expired[i]);
        i := i + 1;
      }
      assert expired[i..] == [];
    }

    /** Not ok means the pass ended early with the exception of a missing flag. */
    method ReaperTick(now: real) returns (ok: bool)
      requires forall id :: id in order ==> id in instances
      modifies this
      ensures Stepped(Snapshot(), ok) == Reap(old(Snapshot()), now)
    {
      hide PoolModel.PromoteNext, ExpiredIn, ReclaimAll, FreeIn;
      ReleaseExpired(now);
      ghost var reclaimed := Snapshot();
      while FreeIn(order, instances) != [] && queue != []
        invariant PromoteAll(reclaimed) == PromoteAll(Snapshot())
        invariant forall id :: id in order ==> id in instances
        decreases |queue|
      {
        ok := PromoteNext();
        if !ok {
          return;
        }
      }
      return true;
    }

    method BootDone(id: string) returns (ok: bool)
      requires forall id :: id in order ==> id in instances
      modifies this
      ensures Stepped(Snapshot(), ok) == PoolModel.BootDone(old(Snapshot()), id)
    {
      if id in instances && instances[id].phase.Booting? {
        instances := instances[id := instances[id].(phase := Idle)];
        ok := PromoteNext();
        return;
      }
      return true;
    }

    method PushFlag(t: int)
      modifies this`flags
      ensures Snapshot() == Step(old(Snapshot()), Event.PushFlag(t))
    {
      flags := flags + {t};
    }
  }
}
