/**
 The length of a lease, instance by instance. The record of an instance always
 shows its latest entry in the history, in every pool.
 */
module PoolTerms {
  import opened Options
  import opened PoolModel
  import opened PoolLimits

  /** The latest entry about an instance. */
  ghost function Latest(log: seq<Entry>, id: string): Option<Entry>
    decreases |log|
  {
    if log == [] then None
    else if log[|log| - 1].id == id then Some(log[|log| - 1])
    else Latest(log[..|log| - 1], id)
  }

  /** Assigned to t until LEASE_SECONDS after the grant if the latest entry is a grant to t, otherwise to nobody. */
  ghost predicate Shows(config: Config, latest: Option<Entry>, i: Instance) {
    if latest.Some? && latest.value.Granted?
    then i.team == Some(latest.value.team) && i.expires == Some(latest.value.at + config.leaseSeconds as real)
    else i.team.None? && i.expires.None?
  }

  ghost predicate Recorded(s: State) {
    forall id :: id in s.instances ==> Shows(s.config, Latest(s.log, id), s.instances[id])
  }

  lemma LatestAppend(log: seq<Entry>, e: Entry)
    ensures forall id :: Latest(log + [e], id) == if e.id == id then Some(e) else Latest(log, id)
  {
    assert (log + [e])[..|log|] == log;
  }

  lemma AssignRecorded(s: State, t: int, id: string)
    requires Recorded(s) && id in s.instances
    ensures Recorded(Assign(s, t, id).state)
  {
    hide Latest;
    if t in s.flags {
      LatestAppend(s.log, Granted(t, id, Read(s).clock.now));
    }
  }

  lemma ReclaimRecorded(s: State, t: int)
    requires Recorded(s)
    ensures Recorded(Reclaim(s, t))
  {
    hide Latest;
    var held := TeamOf(s, t).instance;
    if held.Some? && held.value in s.instances {
      LatestAppend(s.log, Freed(t, held.value, Read(s).clock.now));
    }
  }

  lemma {:induction false} ReclaimAllRecorded(s: State, teams: seq<int>)
    requires Recorded(s)
    ensures Recorded(ReclaimAll(s, teams))
    decreases |teams|
  {
    hide Recorded, Reclaim;
    if teams != [] {
      ReclaimRecorded(s, teams[0]);
      ReclaimAllRecorded(Reclaim(s, teams[0]), teams[1..]);
    }
  }

  /** The record concerns configuration, instances and history only. */
  lemma RecordedFrame(s: State, r: State)
    requires Recorded(s) && r.config == s.config && r.instances == s.instances && r.log == s.log
    ensures Recorded(r)
  {
  }

  lemma {:induction false} PromoteToRecorded(s: State, id: string)
    requires Recorded(s) && id in s.instances
    ensures Recorded(PromoteTo(s, id).state)
    decreases |s.queue|
  {
    hide Recorded, Assign, CoolVerdict;
    if s.queue != [] {
      var t := s.queue[0];
      var popped := s.(queue := s.queue[1..]);
      var tested := CoolTested(popped, t);
      RecordedFrame(s, popped);
      RecordedFrame(s, tested);
      if TeamOf(popped, t).instance.Some? {
        PromoteToRecorded(popped, id);
      } else if CoolVerdict(tested, t).Some? {
        PromoteToRecorded(tested, id);
      } else {
        AssignRecorded(tested, t, id);
      }
    }
  }

  lemma PromoteNextRecorded(s: State)
    requires Recorded(s)
    ensures Recorded(PromoteNext(s).state)
  {
    hide Recorded, PromoteTo, FreeIn;
    var free := Free(s);
    if free != [] && s.queue != [] {
      assert free[0] in free;
      PromoteToRecorded(s, free[0]);
    }
  }

  lemma {:induction false} PromoteAllRecorded(s: State)
    requires Recorded(s)
    ensures Recorded(PromoteAll(s).state)
    decreases |s.queue|
  {
    hide Recorded, PromoteNext, Free;
    if Free(s) != [] && s.queue != [] {
      PromoteNextRecorded(s);
      if PromoteNext(s).ok {
        PromoteAllRecorded(PromoteNext(s).state);
      }
    }
  }

  lemma AdmitRecorded(s: State, t: int)
    requires Recorded(s)
    ensures Recorded(Admit(s, t).0)
  {
    hide Recorded, Assign, FreeIn;
    var free := Free(s);
    if free == [] {
      RecordedFrame(s, s.(queue := s.queue + [t]));
    } else {
      assert free[0] in free;
      AssignRecorded(s, t, free[0]);
    }
  }

  lemma LeaseRecorded(s: State, t: int)
    requires Recorded(s)
    ensures Recorded(Lease(s, t).0)
  {
    hide Recorded, Admit, CurrentLease, RateVerdict, CoolVerdict, Prune;
    var rated := RateTested(s, t);
    var cooled := CoolTested(rated, t);
    RecordedFrame(s, Read(s));
    RecordedFrame(s, rated);
    RecordedFrame(s, cooled);
    AdmitRecorded(cooled, t);
  }

  lemma StatusRecorded(s: State, t: int)
    requires Recorded(s)
    ensures Recorded(Status(s, t))
  {
    hide Recorded, Prune, CurrentLease;
    RecordedFrame(s, Status(s, t));
  }

  lemma BootRecorded(s: State, id: string)
    requires Recorded(s)
    ensures Recorded(BootDone(s, id).state)
  {
    hide PromoteNext, Latest;
    if id in s.instances && s.instances[id].phase.Booting? {
      PromoteNextRecorded(s.(instances := s.instances[id := s.instances[id].(phase := Idle)]));
    }
  }

  lemma StepRecorded(s: State, e: Event)
    requires Recorded(s)
    ensures Recorded(Step(s, e))
  {
    hide Recorded, Lease, Reclaim, PromoteAll, ReclaimAll, BootDone, Status, CurrentLease;
    match e
    case PushFlag(t) => RecordedFrame(s, Step(s, e));
    case AskLease(t) => LeaseRecorded(s, t);
    case AskRelease(t) =>
      ReclaimRecorded(s, t);
      RecordedFrame(s, s.(queue := Without(s.queue, t)));
    case AskStatus(t) => StatusRecorded(s, t);
    case ReaperTick(now) =>
      var teams := ExpiredIn(s.order, s.instances, now);
      ReclaimAllRecorded(s, teams);
      PromoteAllRecorded(ReclaimAll(s, teams));
    case Booted(id) => BootRecorded(s, id);
  }

  lemma {:induction false} RunRecorded(s: State, events: seq<Event>)
    requires Recorded(s)
    ensures Recorded(Run(s, events))
    decreases |events|
  {
    hide Recorded, Step;
    if events != [] {
      StepRecorded(s, events[0]);
      RunRecorded(Step(s, events[0]), events[1..]);
    }
  }

  /** In every run of every pool, an instance is assigned to exactly the team of its latest grant, until that lease is
      ended, and expires LEASE_SECONDS after the grant. */
  lemma InstanceTerm(config: Config, order: seq<string>, clock: Clock, events: seq<Event>, id: string)
    requires id in Run(Initial(config, order, clock), events).instances
    ensures var r := Run(Initial(config, order, clock), events);
            Shows(config, Latest(r.log, id), r.instances[id])
  {
    hide Run, Latest;
    assert Recorded(Initial(config, order, clock)) by { NothingRecorded(config, order, clock); }
    RunRecorded(Initial(config, order, clock), events);
    RunConfig(Initial(config, order, clock), events);
  }

  lemma NothingRecorded(config: Config, order: seq<string>, clock: Clock)
    ensures Recorded(Initial(config, order, clock))
  {
  }
}
