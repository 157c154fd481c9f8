/**
 Teams without a flag. team_flags.py promises that their leases are refused; here
 is when a request is refused and when it queues instead, when the queue then
 leaves an instance idle, and why such a team is never granted a lease.
 */
module PoolFlags {
  import opened PoolModel
  import opened PoolSafety
  import opened PoolRuns
  import opened PoolOrder

  // ---------------------------------------------------------------------
  // Refused or queued
  // ---------------------------------------------------------------------

  /** The state in which a lease request decides, after both tests. */
  function Tested(s: State, t: int): State {
    CoolTested(RateTested(s, t), t)
  }

  /** t holds nothing, does not wait, and passes the rate limit and the cooldown. */
  predicate MayAsk(s: State, t: int) {
    && CurrentLease(s, t).None? && t !in s.queue
    && RateVerdict(RateTested(s, t), t).None? && CoolVerdict(Tested(s, t), t).None?
  }

  lemma TestedFrame(s: State, t: int)
    ensures Free(Tested(s, t)) == Free(s) && Tested(s, t).queue == s.queue && Tested(s, t).flags == s.flags
    ensures Tested(s, t).log == s.log && Tested(s, t).order == s.order && Tested(s, t).instances == s.instances
  {
    hide FreeIn, Prune;
  }

  lemma AdmitOutcome(s: State, t: int)
    ensures Admit(s, t).1 == NoFlag <==> Free(s) != [] && t !in s.flags
    ensures Admit(s, t).0.queue == if Free(s) == [] then s.queue + [t] else s.queue
    ensures Admit(s, t).1.Waiting? <==> Free(s) == []
  {
    hide FreeIn;
    var free := Free(s);
    if free != [] {
      assert free[0] in free;
    }
  }

  /** The refusal for a missing flag, exactly: it needs an idle instance, since the flag is looked up last. */
  lemma RefusedIff(s: State, t: int)
    ensures Lease(s, t).1 == NoFlag <==> MayAsk(s, t) && Free(s) != [] && t !in s.flags
  {
    hide Admit, CurrentLease, RateVerdict, CoolVerdict, FreeIn;
    AdmitOutcome(Tested(s, t), t);
    TestedFrame(s, t);
  }

  /** A team without a flag that could otherwise lease is refused if an instance is idle, and queues if none is. */
  lemma MissingFlagOutcome(s: State, t: int)
    requires t !in s.flags && MayAsk(s, t)
    ensures Lease(s, t).1 == NoFlag <==> Free(s) != []
    ensures Lease(s, t).1.Waiting? <==> Free(s) == []
    ensures Lease(s, t).0.queue == if Free(s) == [] then s.queue + [t] else s.queue
  {
    hide Admit, CurrentLease, RateVerdict, CoolVerdict, FreeIn;
    AdmitOutcome(Tested(s, t), t);
    TestedFrame(s, t);
  }

  // ---------------------------------------------------------------------
  // When an instance is left idle beside a waiting team
  // ---------------------------------------------------------------------

  function Idled(s: State, id: string): State
    requires id in s.instances
  {
    s.(instances := s.instances[id := s.instances[id].(phase := Idle)])
  }

  predicate Boots(s: State, id: string) {
    id in s.instances && s.instances[id].phase.Booting?
  }

  lemma {:induction false} FreeIncludes(order: seq<string>, instances: map<string, Instance>, id: string)
    requires id in order && IsFree(instances, id)
    ensures FreeIn(order, instances) != []
  {
  }

  /** After a boot the free list is the booted instance alone, when it was empty before. */
  lemma BootedFree(s: State, id: string)
    requires Inv(s) && Boots(s, id) && Free(s) == []
    ensures |Free(Idled(s, id))| == 1
  {
    hide FreeIn, Ready, TeamHistory;
    FreeGains(s.order, s.instances, id, s.instances[id].(phase := Idle));
    FreeIncludes(s.order, Idled(s, id).instances, id);
  }

  /** A boot strands a waiting team exactly when the head of the queue has no flag and somebody waits behind it. */
  lemma BootStrandedIff(s: State, id: string)
    requires Inv(s) && Served(s)
    ensures !Served(BootDone(s, id).state) <==> Boots(s, id) && |s.queue| >= 2 && s.queue[0] !in s.flags
  {
    hide Inv, FreeIn, PromoteTo;
    if Boots(s, id) {
      BootKeeps(s, id);
      if s.queue != [] {
        BootedFree(s, id);
        PromoteNextExact(Idled(s, id));
      }
    }
  }

  lemma {:induction false} ReclaimAllFree(s: State, teams: seq<int>)
    requires Inv(s)
    ensures Free(ReclaimAll(s, teams)) == Free(s)
    decreases |teams|
  {
    hide Inv, Reclaim, FreeIn;
    if teams != [] {
      ReclaimKeeps(s, teams[0]);
      ReclaimFree(s, teams[0]);
      ReclaimAllFree(Reclaim(s, teams[0]), teams[1..]);
    }
  }

  lemma ReclaimFree(s: State, t: int)
    requires Inv(s)
    ensures Free(Reclaim(s, t)) == Free(s)
  {
    hide TeamHistory, CooldownKept, Ready;
    FreeSame(s.order, s.instances, Reclaim(s, t).instances);
  }

  lemma {:induction false} FreeSame(order: seq<string>, a: map<string, Instance>, b: map<string, Instance>)
    requires forall id :: id in order ==> (IsFree(a, id) <==> IsFree(b, id))
    ensures FreeIn(order, a) == FreeIn(order, b)
  {
    if order != [] {
      assert order[0] in order;
      FreeSame(order[1..], a, b);
    }
  }

  /** A reaper tick leaves an instance idle beside a waiting team exactly when its promotions reach a team without
      a flag that is not the last one waiting; releasing expired leases has no part in it. */
  lemma TickStrandedIff(s: State, now: real)
    requires Inv(s)
    ensures var n := FlaggedPrefix(s.queue, s.flags, |Free(s)|);
            !Served(Reap(s, now).state) <==> n < Min(|s.queue|, |Free(s)|) && n + 1 < |s.queue|
  {
    hide Inv, FreeIn, PromoteAll, ReclaimAll, ExpiredIn;
    var teams := ExpiredIn(s.order, s.instances, now);
    ReclaimAllKeeps(s, teams);
    ReclaimAllFree(s, teams);
    StrandedIff(ReclaimAll(s, teams));
  }

  lemma LeaseNeverStrands(s: State, t: int)
    requires Served(s)
    ensures Served(Lease(s, t).0)
  {
    hide Admit, CurrentLease, RateVerdict, CoolVerdict, FreeIn;
    TestedFrame(s, t);
    AdmitNeverStrands(Tested(s, t), t);
    assert Free(RateTested(s, t)) == Free(s);
  }

  lemma AdmitNeverStrands(s: State, t: int)
    requires Served(s)
    ensures Served(Admit(s, t).0)
  {
    hide FreeIn;
    var free := Free(s);
    if free != [] {
      assert free[0] in free;
    }
  }

  lemma ReleaseNeverStrands(s: State, t: int)
    requires Inv(s) && Served(s)
    ensures Served(Release(s, t))
  {
    hide Inv, FreeIn, Reclaim, CurrentLease;
    if CurrentLease(s, t).Some? {
      ReclaimKeeps(s, t);
      ReclaimFree(s, t);
    } else {
      QueueOf(s);
      WithoutOne(s.queue, t);
    }
  }

  /** From a state in which no instance idles beside a waiting team, only a boot can lead to one in which one does,
      and exactly when the head of the queue has no flag and is not alone. */
  lemma StepStrandedIff(s: State, e: Event)
    requires Inv(s) && Served(s)
    ensures !Served(Step(s, e)) <==> e.Booted? && Boots(s, e.id) && |s.queue| >= 2 && s.queue[0] !in s.flags
  {
    hide Inv, Lease, Release, Reap, FreeIn, CurrentLease, BootDone, Status;
    match e
    case PushFlag(t) =>
    case AskLease(t) => LeaseNeverStrands(s, t);
    case AskRelease(t) => ReleaseNeverStrands(s, t);
    case AskStatus(t) => StatusFrame(s, t);
    case ReaperTick(now) => TickStrandedIff(s, now);
    case Booted(id) => BootStrandedIff(s, id);
  }

  lemma StatusFrame(s: State, t: int)
    ensures Free(Status(s, t)) == Free(s) && Status(s, t).queue == s.queue
  {
    hide FreeIn, Prune;
  }

  // ---------------------------------------------------------------------
  // Only teams with a flag are served
  // ---------------------------------------------------------------------

  /** r's log continues s's, and every new grant went to a team whose flag s already had. */
  ghost predicate GrantsFlagged(s: State, r: State) {
    && s.log <= r.log
    && forall k :: |s.log| <= k < |r.log| && r.log[k].Granted? ==> r.log[k].team in s.flags
  }

  lemma FlaggedTrans(s: State, m: State, r: State)
    requires GrantsFlagged(s, m) && m.flags <= s.flags && GrantsFlagged(m, r)
    ensures GrantsFlagged(s, r)
  {
    forall k | |s.log| <= k < |r.log| && r.log[k].Granted?
      ensures r.log[k].team in s.flags
    {
      if k < |m.log| {
        assert r.log[k] == m.log[k];
      }
    }
  }

  lemma {:induction false} PromoteToFlagged(s: State, id: string)
    requires id in s.instances
    ensures GrantsFlagged(s, PromoteTo(s, id).state)
    decreases |s.queue|
  {
    if s.queue != [] {
      var t := s.queue[0];
      var popped := s.(queue := s.queue[1..]);
      if TeamOf(popped, t).instance.Some? {
        PromoteToFlagged(popped, id);
      } else if CoolVerdict(CoolTested(popped, t), t).Some? {
        PromoteToFlagged(CoolTested(popped, t), id);
      }
    }
  }

  lemma PromoteNextFlagged(s: State)
    ensures GrantsFlagged(s, PromoteNext(s).state)
  {
    hide PromoteTo, FreeIn, GrantsFlagged;
    assert GrantsFlagged(s, s) by { NothingGranted(s); }
    var free := Free(s);
    if free != [] && s.queue != [] {
      assert free[0] in free;
      PromoteToFlagged(s, free[0]);
    }
  }

  lemma NothingGranted(s: State)
    ensures GrantsFlagged(s, s)
  {
  }

  lemma {:induction false} PromoteAllFlagged(s: State)
    ensures GrantsFlagged(s, PromoteAll(s).state)
    decreases |s.queue|
  {
    hide PromoteNext, FreeIn, GrantsFlagged;
    NothingGranted(s);
    if Free(s) != [] && s.queue != [] {
      PromoteNextFlagged(s);
      var p := PromoteNext(s);
      if p.ok {
        PromoteAllFlagged(p.state);
        FlaggedTrans(s, p.state, PromoteAll(s).state);
      }
    }
  }

  lemma {:induction false} ReclaimAllFlagged(s: State, teams: seq<int>)
    ensures GrantsFlagged(s, ReclaimAll(s, teams))
    decreases |teams|
  {
    if teams != [] {
      var r := Reclaim(s, teams[0]);
      ReclaimAllFlagged(r, teams[1..]);
      FlaggedTrans(s, r, ReclaimAll(s, teams));
    }
  }

  lemma LeaseFlagged(s: State, t: int)
    ensures GrantsFlagged(s, Lease(s, t).0)
  {
    hide Admit, CurrentLease, RateVerdict, CoolVerdict, FreeIn, Prune;
    TestedFrame(s, t);
    AdmitFlagged(Tested(s, t), t);
  }

  lemma AdmitFlagged(s: State, t: int)
    ensures GrantsFlagged(s, Admit(s, t).0)
  {
    hide FreeIn;
    var free := Free(s);
    if free != [] {
      assert free[0] in free;
    }
  }

  lemma StepFlagged(s: State, e: Event)
    ensures GrantsFlagged(s, Step(s, e))
  {
    hide Lease, PromoteAll, PromoteNext, FreeIn, CurrentLease, ReclaimAll, Prune, Status;
    match e
    case PushFlag(t) =>
    case AskLease(t) => LeaseFlagged(s, t);
    case AskRelease(t) =>
    case AskStatus(t) => StatusLog(s, t);
    case ReaperTick(now) =>
      var teams := ExpiredIn(s.order, s.instances, now);
      ReclaimAllFlagged(s, teams);
      PromoteAllFlagged(ReclaimAll(s, teams));
      FlaggedTrans(s, ReclaimAll(s, teams), Reap(s, now).state);
    case Booted(id) =>
      if Boots(s, id) {
        PromoteNextFlagged(Idled(s, id));
      }
  }

  lemma StatusLog(s: State, t: int)
    ensures Status(s, t).log == s.log
  {
    hide Prune;
  }

  lemma StepPushes(s: State, e: Event)
    ensures Step(s, e).flags == if e.PushFlag? then s.flags + {e.team} else s.flags
  {
    hide PromoteAll, PromoteNext, FreeIn, CurrentLease, ReclaimAll, CoolVerdict, RateVerdict;
  }

  /** How many events had happened when entry k of the run's log was written, and the flag had been pushed among
      them. */
  lemma {:induction false} GrantedAfterFlag(s: State, events: seq<Event>, k: nat) returns (i: nat)
    requires |s.log| <= k < |Run(s, events).log| && Run(s, events).log[k].Granted?
    ensures i < |events| && |Run(s, events[..i]).log| <= k < |Run(s, events[..i + 1]).log|
    ensures var t := Run(s, events).log[k].team;
            t in s.flags || PushFlag(t) in events[..i]
    decreases |events|
  {
    hide Step;
    var r := Step(s, events[0]);
    StepFlagged(s, events[0]);
    StepPushes(s, events[0]);
    LogContinues(r, events[1..]);
    if k < |r.log| {
      i := 0;
      assert events[..1] == [events[0]] && Run(s, [events[0]]) == Run(r, []);
      assert Run(s, events).log[k] == r.log[k];
    } else {
      var j := GrantedAfterFlag(r, events[1..], k);
      i := j + 1;
      PrefixRun(s, events, j);
      PrefixRun(s, events, j + 1);
      assert events[..i] == [events[0]] + events[1..][..j];
    }
  }

  lemma PrefixRun(s: State, events: seq<Event>, j: nat)
    requires events != [] && j < |events|
    ensures Run(s, events[..j + 1]) == Run(Step(s, events[0]), events[1..][..j])
  {
    hide Step;
    assert events[..j + 1][1..] == events[1..][..j];
  }

  /** The history of a run is never rewritten. */
  lemma {:induction false} LogContinues(s: State, events: seq<Event>)
    ensures s.log <= Run(s, events).log
    decreases |events|
  {
    hide Step;
    if events != [] {
      StepFlagged(s, events[0]);
      LogContinues(Step(s, events[0]), events[1..]);
    }
  }

  /** From the start of the service on, every lease was granted to a team whose flag had been pushed before. */
  lemma OnlyFlaggedServed(config: Config, order: seq<string>, clock: Clock, events: seq<Event>, k: nat)
    requires k < |Run(Initial(config, order, clock), events).log|
    requires Run(Initial(config, order, clock), events).log[k].Granted?
    ensures exists i :: && 0 <= i < |events| && |Run(Initial(config, order, clock), events[..i]).log| <= k
                        && PushFlag(Run(Initial(config, order, clock), events).log[k].team) in events[..i]
  {
    hide Run;
    var i := GrantedAfterFlag(Initial(config, order, clock), events, k);
  }
}
