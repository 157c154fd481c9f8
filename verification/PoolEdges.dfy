/**
 Where the scheduler's guarantees stop: an instance whose id is the empty string,
 and a team that asks for a lease before its flag was pushed.
 */
module PoolEdges {
  import opened Options
  import opened PoolModel
  import opened PoolSafety
  import opened PoolRuns

  ghost predicate HoldersDoNotQueue(s: State) {
    forall t :: t in s.queue ==> TeamOf(s, t).instance.None?
  }

  /** The lease of an instance with an empty id is invisible to its own team, which can then queue while holding. */
  lemma EmptyIdFirstLease(s: State)
    requires s.queue == [] && s.teams == map[] && 1 in s.flags && "" in s.order
    requires forall id :: id in s.order <==> id in s.instances
    requires forall id :: id in s.instances ==> (IsFree(s.instances, id) <==> id == "")
    ensures var r := Lease(s, 1).0;
            && r.teams == map[1 := TeamOf(r, 1)] && TeamOf(r, 1).instance == Some("") && TeamOf(r, 1).releasedAt.None?
            && TeamOf(r, 1).acquisitions == [Tick(Tick(s.clock)).now] && r.clock == Tick(Tick(s.clock))
            && r.queue == [] && Free(r) == [] && r.order == s.order && r.config == s.config
  {
    var rated := RateTested(s, 1);
    var free := Free(rated);
    assert "" in free;
    assert free[0] in free;
  }

  lemma EmptyIdSecondLease(s: State)
    requires TeamOf(s, 1).instance == Some("") && TeamOf(s, 1).releasedAt.None? && s.queue == [] && Free(s) == []
    requires |TeamOf(s, 1).acquisitions| == 1 && TeamOf(s, 1).acquisitions[0] <= Tick(s.clock).now - WINDOW
    ensures Lease(s, 1).0.queue == [1] && TeamOf(Lease(s, 1).0, 1).instance == Some("")
  {
    var rated := RateTested(s, 1);
    assert TeamOf(rated, 1).acquisitions == [];
    assert Free(rated) == Free(s);
  }

  lemma EmptyIdBreaks(config: Config, order: seq<string>) returns (clock: Clock, events: seq<Event>)
    requires Distinct(order) && "" in order
    ensures !HoldersDoNotQueue(Run(Initial(config, order, clock), events))
  {
    hide Lease, FreeIn, PromoteTo;
    clock := Clock(0.0, [0.0, 0.0, 4000.0]);
    events := [PushFlag(1), Booted(""), AskLease(1), AskLease(1)];
    var s0 := Initial(config, order, clock);
    var s1 := Step(s0, PushFlag(1));
    var s2 := Step(s1, Booted(""));
    var s3 := Step(s2, AskLease(1));
    var s4 := Step(s3, AskLease(1));
    RunFour(s0, PushFlag(1), Booted(""), AskLease(1), AskLease(1));
    EmptyIdFirstLease(s2);
    EmptyIdSecondLease(s3);
    assert 1 in s4.queue;
  }

  lemma HoldersApart(s: State)
    requires Inv(s)
    ensures HoldersDoNotQueue(s)
  {
  }

  /** Holding and waiting exclude each other in every run exactly when no instance has the empty id. */
  lemma EmptyIdExact(config: Config, order: seq<string>)
    requires Distinct(order)
    ensures (forall clock, events :: HoldersDoNotQueue(Run(Initial(config, order, clock), events)))
            <==> "" !in order
  {
    hide Inv, HoldersDoNotQueue, Run;
    if "" in order {
      var clock, events := EmptyIdBreaks(config, order);
    } else {
      forall clock, events
        ensures HoldersDoNotQueue(Run(Initial(config, order, clock), events))
      {
        InitialInv(config, order, clock);
        RunKeeps(Initial(config, order, clock), events);
        HoldersApart(Run(Initial(config, order, clock), events));
      }
    }
  }

  /** Team 1 queues without a flag. The promotion that reaches it fails, and the instance stays idle although
      team 2 waits for it with a flag. */
  lemma MissingFlagStrands(clock: Clock)
    ensures var s := Run(Initial(Settings(900, 5, 60), ["a"], clock),
                         [AskLease(1), PushFlag(2), AskLease(2), Booted("a")]);
            s.queue == [2] && 2 in s.flags && Free(s) == ["a"]
  {
    hide FreeIn, PromoteTo, Lease, Run, PromoteNext;
    var s0 := Initial(Settings(900, 5, 60), ["a"], clock);
    var s1 := Step(s0, AskLease(1));
    var s2 := Step(s1, PushFlag(2));
    var s3 := Step(s2, AskLease(2));
    RunFour(s0, AskLease(1), PushFlag(2), AskLease(2), Booted("a"));
    QueuesUp(s0, 1);
    QueuesUp(s2, 2);
    var b := s3.(instances := s3.instances["a" := s3.instances["a"].(phase := Idle)]);
    assert IsFree(b.instances, "a");
    OneFree(b.instances);
    HeadFails(b);
  }

  lemma RunFour(s: State, e1: Event, e2: Event, e3: Event, e4: Event)
    ensures Run(s, [e1, e2, e3, e4]) == Step(Step(Step(Step(s, e1), e2), e3), e4)
  {
    hide Step, Run;
    RunStep(s, [e1, e2, e3, e4], [e2, e3, e4]);
    RunStep(Step(s, e1), [e2, e3, e4], [e3, e4]);
    RunStep(Step(Step(s, e1), e2), [e3, e4], [e4]);
    RunStep(Step(Step(Step(s, e1), e2), e3), [e4], []);
    RunStop(Step(Step(Step(Step(s, e1), e2), e3), e4));
  }

  lemma RunStep(s: State, events: seq<Event>, rest: seq<Event>)
    requires events != [] && events[1..] == rest
    ensures Run(s, events) == Run(Step(s, events[0]), rest)
  {
  }

  lemma RunStop(s: State)
    ensures Run(s, []) == s
  {
  }

  /** A team nobody knows joins the queue when no instance is free. */
  lemma QueuesUp(s: State, t: int)
    requires TeamOf(s, t) == NEWCOMER && t !in s.queue && forall id :: id in s.order ==> !IsFree(s.instances, id)
    ensures Lease(s, t).0 == WithTeam(Read(s), t, NEWCOMER).(queue := s.queue + [t])
  {
    hide FreeIn;
    assert TeamOf(RateTested(s, t), t) == NEWCOMER;
  }

  lemma OneFree(instances: map<string, Instance>)
    requires IsFree(instances, "a")
    ensures FreeIn(["a"], instances) == ["a"]
  {
    assert FreeIn([], instances) == [];
  }

  lemma HeadFails(s: State)
    requires s.queue == [1, 2] && 1 !in s.flags && s.order == ["a"] && Free(s) == ["a"]
    requires TeamOf(s, 1).instance.None? && TeamOf(s, 1).releasedAt.None?
    ensures PromoteNext(s).state.queue == [2] && PromoteNext(s).state.flags == s.flags
    ensures Free(PromoteNext(s).state) == ["a"]
  {
    hide FreeIn;
    var free := Free(s);
    assert free[0] in free;
  }
}
