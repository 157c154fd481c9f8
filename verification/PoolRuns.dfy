/**
 Whole runs of the lease scheduler: the invariant holds after every sequence of
 operations, promotion serves the queue in order, nobody overtakes, and the
 hourly limit and the cooldown hold over the entire history.
 */
module PoolRuns {
  import opened Options
  import opened PoolModel
  import opened PoolSafety

  // ---------------------------------------------------------------------
  // Queue and lifecycle changes
  // ---------------------------------------------------------------------

  lemma Requeued(s: State, queue: seq<int>)
    requires Inv(s) && Distinct(queue) && forall t :: t in queue ==> Ready(s, t)
    ensures Inv(s.(queue := queue))
    ensures forall t :: Ready(s, t) ==> Ready(s.(queue := queue), t)
  {
    hide TeamHistory, CooldownKept, HasRoom, Grants;
    var r := s.(queue := queue);
    assert forall t :: TeamOf(r, t) == TeamOf(s, t);
  }

  lemma Enqueued(s: State, t: int)
    requires Inv(s) && Ready(s, t) && t !in s.queue
    ensures Inv(s.(queue := s.queue + [t]))
  {
    hide Ready, TeamHistory, CooldownKept;
    Requeued(s, s.queue + [t]);
  }

  lemma Popped(s: State)
    requires Inv(s) && s.queue != []
    ensures Inv(s.(queue := s.queue[1..])) && Ready(s.(queue := s.queue[1..]), s.queue[0])
    ensures s.queue[0] !in s.queue[1..]
  {
    hide Ready, TeamHistory, CooldownKept;
    Requeued(s, s.queue[1..]);
  }

  lemma {:induction false} WithoutOne(queue: seq<int>, t: int)
    requires Distinct(queue)
    ensures Distinct(Without(queue, t))
    ensures forall u :: u in Without(queue, t) <==> u in queue && u != t
  {
    if queue != [] {
      assert queue == [queue[0]] + queue[1..];
      if queue[0] != t {
        WithoutOne(queue[1..], t);
        var rest := Without(queue[1..], t);
        assert queue[0] !in rest;
        assert forall i :: 0 <= i < |rest| ==> rest[i] in rest;
      }
    }
  }

  lemma Left(s: State, t: int)
    requires Inv(s)
    ensures Inv(s.(queue := Without(s.queue, t)))
  {
    hide Ready, TeamHistory, CooldownKept;
    WithoutOne(s.queue, t);
    Requeued(s, Without(s.queue, t));
  }

  lemma BootKeeps(s: State, id: string)
    requires Inv(s) && id in s.instances && s.instances[id].phase.Booting?
    ensures Inv(s.(instances := s.instances[id := s.instances[id].(phase := Idle)]))
  {
    hide TeamHistory, CooldownKept, HasRoom, Grants;
    var r := s.(instances := s.instances[id := s.instances[id].(phase := Idle)]);
    assert forall t :: TeamOf(r, t) == TeamOf(s, t);
    assert forall i :: i != id && i in s.instances ==> r.instances[i] == s.instances[i];
  }

  lemma FlagKeeps(s: State, t: int)
    requires Inv(s)
    ensures Inv(s.(flags := s.flags + {t}))
  {
    hide TeamHistory, CooldownKept, HasRoom, Grants;
    var r := s.(flags := s.flags + {t});
    assert forall u :: TeamOf(r, u) == TeamOf(s, u);
  }

  // ---------------------------------------------------------------------
  // Promotion
  // ---------------------------------------------------------------------

  /** The state in which the head of the queue is offered an instance. */
  function Offered(s: State): State
    requires s.queue != []
  {
    CoolTested(s.(queue := s.queue[1..]), s.queue[0])
  }

  lemma OfferedKeeps(s: State)
    requires Inv(s) && s.queue != []
    ensures Inv(Offered(s)) && Ready(Offered(s), s.queue[0]) && Offered(s).queue == s.queue[1..]
    ensures s.queue[0] !in s.queue[1..] && CoolVerdict(Offered(s), s.queue[0]).None?
    ensures TeamOf(s, s.queue[0]).instance.None?
  {
    hide TeamHistory, CooldownKept, HasRoom, Grants, CoolVerdict;
    Popped(s);
    var t := s.queue[0];
    var p := s.(queue := s.queue[1..]);
    CoolTestedKeeps(p, t);
  }

  /** Both skips in the promotion loop are dead: the head of the queue is always offered the instance. */
  lemma HeadIsServed(s: State, id: string)
    requires Inv(s) && s.queue != [] && id in s.instances
    ensures PromoteTo(s, id) == Assign(Offered(s), s.queue[0], id)
  {
    hide Inv, Ready, Assign, CoolVerdict;
    OfferedKeeps(s);
  }

  lemma PromoteNextKeeps(s: State)
    requires Inv(s)
    ensures Inv(PromoteNext(s).state)
  {
    hide Inv, Ready, PromoteTo, Assign, TeamHistory;
    var free := Free(s);
    if free != [] && s.queue != [] {
      assert free[0] in free;
      HeadIsServed(s, free[0]);
      OfferedKeeps(s);
      AssignKeeps(Offered(s), s.queue[0], free[0]);
    }
  }

  lemma {:induction false} PromoteAllKeeps(s: State)
    requires Inv(s)
    ensures Inv(PromoteAll(s).state)
    decreases |s.queue|
  {
    hide Inv, PromoteNext;
    if Free(s) != [] && s.queue != [] {
      PromoteNextKeeps(s);
      if PromoteNext(s).ok {
        PromoteAllKeeps(PromoteNext(s).state);
      }
    }
  }

  lemma {:induction false} ReclaimAllKeeps(s: State, teams: seq<int>)
    requires Inv(s)
    ensures Inv(ReclaimAll(s, teams))
    decreases |teams|
  {
    hide Inv, Reclaim;
    if teams != [] {
      ReclaimKeeps(s, teams[0]);
      ReclaimAllKeeps(Reclaim(s, teams[0]), teams[1..]);
    }
  }

  // ---------------------------------------------------------------------
  // Every operation
  // ---------------------------------------------------------------------

  /** In a reachable state the held instance is what the lease lookup finds. */
  lemma LeaseFound(s: State, t: int)
    requires Inv(s)
    ensures CurrentLease(s, t) == TeamOf(s, t).instance
  {
    hide TeamHistory, CooldownKept, Ready;
  }

  /** Passing both tests makes a team ready. */
  lemma PassedTests(s: State, t: int)
    requires Inv(s) && CurrentLease(s, t).None?
    requires RateVerdict(RateTested(s, t), t).None?
    requires CoolVerdict(CoolTested(RateTested(s, t), t), t).None?
    ensures Inv(CoolTested(RateTested(s, t), t)) && Ready(CoolTested(RateTested(s, t), t), t)
  {
    hide Inv, TeamHistory, CoolVerdict, RateVerdict, HasRoom, Grants;
    LeaseFound(s, t);
    RateTestedKeeps(s, t);
    var rated := RateTested(s, t);
    CoolTestedKeeps(rated, t);
    var cooled := CoolTested(rated, t);
    RoomLater(Grants(s.log, t), s.config.rateMax, Read(s).clock.now, cooled.clock.now);
  }

  lemma RoomLater(g: seq<real>, rateMax: int, was: real, now: real)
    requires HasRoom(g, rateMax, was) && was <= now
    ensures HasRoom(g, rateMax, now)
  {
  }

  lemma AdmitKeeps(s: State, t: int)
    requires Inv(s) && Ready(s, t) && t !in s.queue
    ensures Inv(Admit(s, t).0)
  {
    hide Inv, Ready, Assign;
    var free := Free(s);
    if free == [] {
      Enqueued(s, t);
    } else {
      assert free[0] in free;
      AssignKeeps(s, t, free[0]);
    }
  }

  lemma LeaseKeeps(s: State, t: int)
    requires Inv(s)
    ensures Inv(Lease(s, t).0)
  {
    hide Inv, Ready, Admit, CoolVerdict, RateVerdict, CurrentLease;
    if CurrentLease(s, t).Some? {
      ReadKeeps(s);
    } else if t !in s.queue {
      RateTestedKeeps(s, t);
      CoolTestedKeeps(RateTested(s, t), t);
      var cooled := CoolTested(RateTested(s, t), t);
      if RateVerdict(RateTested(s, t), t).None? && CoolVerdict(cooled, t).None? {
        PassedTests(s, t);
        AdmitKeeps(cooled, t);
      }
    }
  }

  lemma StepKeeps(s: State, e: Event)
    requires Inv(s)
    ensures Inv(Step(s, e))
  {
    hide Inv, Lease, Reclaim, PromoteNext, PromoteAll, CurrentLease;
    match e
    case PushFlag(t) => FlagKeeps(s, t);
    case AskLease(t) => LeaseKeeps(s, t);
    case AskRelease(t) =>
      ReclaimKeeps(s, t);
      Left(s, t);
    case AskStatus(t) =>
      ReadKeeps(s);
      RateTestedKeeps(s, t);
      CoolTestedKeeps(RateTested(s, t), t);
    case ReaperTick(now) =>
      ReclaimAllKeeps(s, ExpiredIn(s.order, s.instances, now));
      PromoteAllKeeps(ReclaimAll(s, ExpiredIn(s.order, s.instances, now)));
    case Booted(id) =>
      if id in s.instances && s.instances[id].phase.Booting? {
        BootKeeps(s, id);
        PromoteNextKeeps(s.(instances := s.instances[id := s.instances[id].(phase := Idle)]));
      }
  }

  /** The order of loading: what comes earlier in it occurs in the configuration before the other occurs at all. */
  lemma {:induction false} FirstOccurrencesOrder(ids: seq<string>, i: nat, j: nat)
    requires i < j < |FirstOccurrences(ids)|
    ensures exists k :: && 0 <= k < |ids| && ids[k] == FirstOccurrences(ids)[i]
                        && FirstOccurrences(ids)[j] !in ids[..k + 1]
    decreases |ids|
  {
    var front, last := ids[..|ids| - 1], ids[|ids| - 1];
    var order := FirstOccurrences(front);
    if j < |order| {
      FirstOccurrencesOrder(front, i, j);
      var k :| 0 <= k < |front| && front[k] == order[i] && order[j] !in front[..k + 1];
      assert front[..k + 1] == ids[..k + 1] && ids[k] == front[k];
    } else {
      assert order[i] in order;
      var k :| 0 <= k < |front| && front[k] == order[i];
      assert ids[k] == front[k] && ids[..k + 1] == front[..k + 1];
    }
  }

  lemma FirstOccurrencesNext(ids: seq<string>, i: nat)
    requires i < |ids|
    ensures FirstOccurrences(ids[..i + 1]) == FirstOccurrences(ids[..i]) + if ids[i] in ids[..i] then [] else [ids[i]]
  {
    assert ids[..i + 1][..i] == ids[..i];
  }

  lemma OneMoreBooting(order: seq<string>, id: string)
    ensures id in AllBooting(order) <==> id in order
    ensures AllBooting(order)[id := Instance(None, None, Booting)]
            == AllBooting(if id in order then order else order + [id])
  {
  }

  lemma FirstOccurrencesDistinct(ids: seq<string>)
    ensures Distinct(FirstOccurrences(ids))
  {
    var order := FirstOccurrences(ids);
    forall i, j | 0 <= i < j < |order| ensures order[i] != order[j] {
      FirstOccurrencesOrder(ids, i, j);
      var k :| 0 <= k < |ids| && ids[k] == order[i] && order[j] !in ids[..k + 1];
      assert ids[..k + 1][k] == ids[k];
    }
  }

  lemma InitialInv(config: Config, order: seq<string>, clock: Clock)
    requires Distinct(order)
    ensures Inv(Initial(config, order, clock)) <==> "" !in order
  {
  }

  /** Every state of every run satisfies the invariant. */
  lemma {:induction false} RunKeeps(s: State, events: seq<Event>)
    requires Inv(s)
    ensures Inv(Run(s, events))
    decreases |events|
  {
    hide Inv, Step;
    if events != [] {
      StepKeeps(s, events[0]);
      RunKeeps(Step(s, events[0]), events[1..]);
    }
  }
}
