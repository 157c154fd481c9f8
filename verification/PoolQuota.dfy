/**
 The hourly limit and the cooldown on their own. They need neither the links
 between teams and instances nor a proper id: the tests before a lease and the
 cooldown test of a promotion are enough, in every pool.
 */
module PoolQuota {
  import opened PoolModel
  import opened PoolSafety
  import opened PoolRuns

  /** The histories keep both limits, and each waiting team, which waits once, has room for one more grant. */
  ghost predicate Quota(s: State) {
    var waiting := Distinct(s.queue)
                   && forall t :: t in s.queue ==> HasRoom(Grants(s.log, t), s.config.rateMax, s.clock.now);
    waiting && Histories(s) && CooldownKept(s.log, s.config.cooldown)
  }

  lemma QuotaLater(s: State, r: State)
    requires Quota(s) && SameButTime(s, r)
    ensures Quota(r)
  {
    hide TeamHistory, Grants, CooldownKept;
    assert forall t :: TeamOf(r, t) == TeamOf(s, t);
    forall t
      ensures TeamHistory(r.config, r.log, r.clock, TeamOf(r, t), t)
    {
      LaterHistory(s.config, s.log, s.clock, r.clock, TeamOf(s, t), t);
    }
  }

  /** A change of queue or tables that keeps histories and admits only teams with room. */
  lemma QuotaMoved(s: State, r: State)
    requires Quota(s) && r.config == s.config && r.log == s.log && r.clock == s.clock && r.teams == s.teams
    requires Distinct(r.queue)
    requires forall t :: t in r.queue ==> HasRoom(Grants(s.log, t), s.config.rateMax, s.clock.now)
    ensures Quota(r)
  {
    hide TeamHistory, Grants, CooldownKept, HasRoom;
    assert forall t :: TeamOf(r, t) == TeamOf(s, t);
  }

  lemma QuotaRateTested(s: State, t: int)
    requires Quota(s)
    ensures Quota(RateTested(s, t))
    ensures var q := RateTested(s, t);
            && TeamHistory(q.config, q.log, q.clock, TeamOf(q, t), t)
            && |TeamOf(q, t).acquisitions| <= s.config.rateMax
            && (RateVerdict(q, t).None? <==> HasRoom(Grants(s.log, t), s.config.rateMax, q.clock.now))
  {
    hide TeamHistory, Grants, CooldownKept, HasRoom, Prune;
    var r := Read(s);
    QuotaLater(s, r);
    assert TeamHistory(r.config, r.log, r.clock, TeamOf(r, t), t);
    PrunedHistory(r.config, r.log, r.clock, TeamOf(r, t), t);
    var q := RateTested(s, t);
    forall u
      ensures TeamHistory(q.config, q.log, q.clock, TeamOf(q, u), u)
    {
      assert TeamHistory(r.config, r.log, r.clock, TeamOf(r, u), u);
    }
  }

  lemma QuotaCoolTested(s: State, t: int)
    requires Quota(s)
    ensures Quota(CoolTested(s, t)) && SameButTime(s, CoolTested(s, t))
    ensures CoolVerdict(CoolTested(s, t), t).None? ==> Rested(s.config, TeamOf(s, t), CoolTested(s, t).clock.now)
  {
    hide Quota;
    QuotaLater(s, CoolTested(s, t));
  }

  lemma QuotaAssign(s: State, t: int, id: string)
    requires Quota(s) && id in s.instances && t !in s.queue
    requires HasRoom(Grants(s.log, t), s.config.rateMax, s.clock.now) && Rested(s.config, TeamOf(s, t), s.clock.now)
    ensures Quota(Assign(s, t, id).state)
  {
    hide TeamHistory, Grants, CooldownKept, HasRoom;
    QuotaLater(s, Read(s));
    if t in s.flags {
      var r := Assign(s, t, id).state;
      AssignHistories(s, t, id);
      forall u | u in r.queue
        ensures HasRoom(Grants(r.log, u), r.config.rateMax, r.clock.now)
      {
        RoomStays(s.log, Granted(t, id, r.clock.now), u, s.config.rateMax, s.clock.now, r.clock.now);
      }
    }
  }

  lemma QuotaReclaim(s: State, t: int)
    requires Quota(s)
    ensures Quota(Reclaim(s, t))
  {
    hide TeamHistory, Grants, CooldownKept, HasRoom;
    var held := TeamOf(s, t).instance;
    if held.Some? && held.value in s.instances {
      var r := Reclaim(s, t);
      ReclaimHistories(s, t);
      forall u | u in r.queue
        ensures HasRoom(Grants(r.log, u), r.config.rateMax, r.clock.now)
      {
        RoomStays(s.log, Freed(t, held.value, r.clock.now), u, s.config.rateMax, s.clock.now, r.clock.now);
      }
    }
  }

  lemma {:induction false} QuotaReclaimAll(s: State, teams: seq<int>)
    requires Quota(s)
    ensures Quota(ReclaimAll(s, teams))
    decreases |teams|
  {
    hide Quota, Reclaim;
    if teams != [] {
      QuotaReclaim(s, teams[0]);
      QuotaReclaimAll(Reclaim(s, teams[0]), teams[1..]);
    }
  }

  lemma QuotaPopped(s: State)
    requires Quota(s) && s.queue != []
    ensures Quota(s.(queue := s.queue[1..])) && s.queue[0] !in s.queue[1..]
    ensures HasRoom(Grants(s.log, s.queue[0]), s.config.rateMax, s.clock.now)
  {
    hide TeamHistory, Grants, CooldownKept, HasRoom;
    var head := s.queue[0];
    assert head in s.queue;
    QuotaMoved(s, s.(queue := s.queue[1..]));
  }

  lemma {:induction false} QuotaPromoteTo(s: State, id: string)
    requires Quota(s) && id in s.instances
    ensures Quota(PromoteTo(s, id).state)
    decreases |s.queue|
  {
    hide Quota, HasRoom, Grants, CoolVerdict, Assign, Rested;
    if s.queue != [] {
      QuotaPopped(s);
      var t := s.queue[0];
      var popped := s.(queue := s.queue[1..]);
      QuotaCoolTested(popped, t);
      var tested := CoolTested(popped, t);
      if TeamOf(popped, t).instance.Some? {
        QuotaPromoteTo(popped, id);
      } else if CoolVerdict(tested, t).Some? {
        QuotaPromoteTo(tested, id);
      } else {
        RoomLater(Grants(s.log, t), s.config.rateMax, s.clock.now, tested.clock.now);
        QuotaAssign(tested, t, id);
      }
    }
  }

  lemma QuotaPromoteNext(s: State)
    requires Quota(s)
    ensures Quota(PromoteNext(s).state)
  {
    hide Quota, PromoteTo, FreeIn;
    var free := Free(s);
    if free != [] && s.queue != [] {
      assert free[0] in free;
      QuotaPromoteTo(s, free[0]);
    }
  }

  lemma {:induction false} QuotaPromoteAll(s: State)
    requires Quota(s)
    ensures Quota(PromoteAll(s).state)
    decreases |s.queue|
  {
    hide Quota, PromoteNext, FreeIn;
    if Free(s) != [] && s.queue != [] {
      QuotaPromoteNext(s);
      if PromoteNext(s).ok {
        QuotaPromoteAll(PromoteNext(s).state);
      }
    }
  }

  lemma QuotaAdmit(s: State, t: int)
    requires Quota(s) && t !in s.queue
    requires HasRoom(Grants(s.log, t), s.config.rateMax, s.clock.now) && Rested(s.config, TeamOf(s, t), s.clock.now)
    ensures Quota(Admit(s, t).0)
  {
    hide TeamHistory, Grants, CooldownKept, HasRoom, FreeIn, Assign;
    var free := Free(s);
    if free == [] {
      QuotaMoved(s, s.(queue := s.queue + [t]));
    } else {
      assert free[0] in free;
      QuotaAssign(s, t, free[0]);
    }
  }

  lemma QuotaLease(s: State, t: int)
    requires Quota(s)
    ensures Quota(Lease(s, t).0)
  {
    hide Quota, Grants, HasRoom, Admit, CurrentLease, RateVerdict, CoolVerdict, Prune, Rested;
    QuotaLater(s, Read(s));
    QuotaRateTested(s, t);
    var rated := RateTested(s, t);
    QuotaCoolTested(rated, t);
    var cooled := CoolTested(rated, t);
    if CurrentLease(s, t).None? && t !in s.queue && RateVerdict(rated, t).None? && CoolVerdict(cooled, t).None? {
      RoomLater(Grants(s.log, t), s.config.rateMax, rated.clock.now, cooled.clock.now);
      QuotaAdmit(cooled, t);
    }
  }

  lemma QuotaRelease(s: State, t: int)
    requires Quota(s)
    ensures Quota(Release(s, t))
  {
    hide TeamHistory, Grants, CooldownKept, HasRoom, Reclaim, CurrentLease;
    QuotaReclaim(s, t);
    WithoutOne(s.queue, t);
    QuotaMoved(s, s.(queue := Without(s.queue, t)));
  }

  lemma QuotaTables(s: State, r: State)
    requires Quota(s) && r == s.(instances := r.instances, flags := r.flags)
    ensures Quota(r)
  {
    hide TeamHistory, Grants, CooldownKept, HasRoom;
    QuotaMoved(s, r);
  }

  lemma QuotaStep(s: State, e: Event)
    requires Quota(s)
    ensures Quota(Step(s, e))
  {
    hide Quota, Lease, Release, ReclaimAll, PromoteNext, PromoteAll, CurrentLease, Prune;
    match e
    case PushFlag(t) => QuotaTables(s, Step(s, e));
    case AskLease(t) => QuotaLease(s, t);
    case AskRelease(t) => QuotaRelease(s, t);
    case AskStatus(t) =>
      QuotaLater(s, Read(s));
      QuotaRateTested(s, t);
      QuotaCoolTested(RateTested(s, t), t);
    case ReaperTick(now) =>
      var teams := ExpiredIn(s.order, s.instances, now);
      QuotaReclaimAll(s, teams);
      QuotaPromoteAll(ReclaimAll(s, teams));
    case Booted(id) =>
      if id in s.instances && s.instances[id].phase.Booting? {
        var b := s.(instances := s.instances[id := s.instances[id].(phase := Idle)]);
        QuotaTables(s, b);
        QuotaPromoteNext(b);
      }
  }

  lemma {:induction false} QuotaRun(s: State, events: seq<Event>)
    requires Quota(s)
    ensures Quota(Run(s, events))
    decreases |events|
  {
    hide Quota, Step;
    if events != [] {
      QuotaStep(s, events[0]);
      QuotaRun(Step(s, events[0]), events[1..]);
    }
  }

  lemma QuotaStart(config: Config, order: seq<string>, clock: Clock)
    ensures Quota(Initial(config, order, clock))
  {
  }
}
