/**
 First come, first served, over whole runs: a team that waits is granted a lease
 before anyone behind it in the queue and before every newcomer.
 */
module PoolFairness {
  import opened PoolModel
  import opened PoolSafety
  import opened PoolRuns
  import opened PoolOrder
  import opened PoolFlags

  /** The teams granted a lease, in order. */
  ghost function ServedTeams(log: seq<Entry>): seq<int>
    decreases |log|
  {
    if log == [] then []
    else
      var e := log[|log| - 1];
      ServedTeams(log[..|log| - 1]) + (if e.Granted? then [e.team] else [])
  }

  lemma ServedAppend(log: seq<Entry>, e: Entry)
    ensures ServedTeams(log + [e]) == if e.Granted? then ServedTeams(log) + [e.team] else ServedTeams(log)
  {
    assert (log + [e])[..|log|] == log;
    assert ServedTeams(log) + [] == ServedTeams(log);
  }

  lemma {:induction false} ServedMany(was: seq<Entry>, log: seq<Entry>, queue: seq<int>, n: nat)
    requires n <= |queue| && |log| == |was| + n && log[..|was|] == was
    requires forall k {:trigger log[k]} :: |was| <= k < |log| ==> log[k].Granted? && log[k].team == queue[k - |was|]
    ensures ServedTeams(log) == ServedTeams(was) + queue[..n]
    decreases n
  {
    if n == 0 {
      assert log == was;
    } else {
      var init := log[..|log| - 1];
      assert init[..|was|] == was;
      ServedMany(was, init, queue, n - 1);
      ServedAppend(init, log[|log| - 1]);
      assert log == init + [log[|log| - 1]];
      assert queue[..n] == queue[..n - 1] + [queue[n - 1]];
    }
  }

  lemma ReclaimServesNobody(s: State, t: int)
    ensures ServedTeams(Reclaim(s, t).log) == ServedTeams(s.log)
  {
    var held := TeamOf(s, t).instance;
    if held.Some? && held.value in s.instances {
      ServedAppend(s.log, Freed(t, held.value, Read(s).clock.now));
    }
  }

  lemma {:induction false} ReclaimAllServesNobody(s: State, teams: seq<int>)
    ensures ServedTeams(ReclaimAll(s, teams).log) == ServedTeams(s.log)
    decreases |teams|
  {
    hide Reclaim;
    if teams != [] {
      ReclaimServesNobody(s, teams[0]);
      ReclaimAllServesNobody(Reclaim(s, teams[0]), teams[1..]);
    }
  }

  lemma PromotedEntries(s: State, r: State, n: nat)
    requires Promoted(s, r, n)
    ensures n <= |s.queue| && |r.log| == |s.log| + n && r.log[..|s.log|] == s.log
    ensures forall k {:trigger r.log[k]} :: |s.log| <= k < |r.log| ==>
              r.log[k].Granted? && r.log[k].team == s.queue[k - |s.log|]
  {
    hide Free;
    forall k {:trigger r.log[k]} | |s.log| <= k < |r.log|
      ensures r.log[k].Granted? && r.log[k].team == s.queue[k - |s.log|]
    {
      var i := k - |s.log|;
      assert Serves(r.log[|s.log| + i], s.queue[i], Free(s)[i]);
    }
  }

  /** What a promotion pass does to the queue: it serves a prefix and may drop the team behind it for want of a flag. */
  ghost predicate TookPrefix(s: State, queue: seq<int>, served: seq<int>) {
    && served <= s.queue
    && (|| queue == s.queue[|served|..]
        || (|served| < |s.queue| && s.queue[|served|] !in s.flags && queue == s.queue[|served| + 1..]))
  }

  lemma PassOrder(s: State) returns (served: seq<int>)
    requires Inv(s)
    ensures TookPrefix(s, PromoteAll(s).state.queue, served)
    ensures ServedTeams(PromoteAll(s).state.log) == ServedTeams(s.log) + served
  {
    hide Inv, PromoteAll, Free, Promoted, ServedTeams;
    PromoteAllExact(s);
    var n := FlaggedPrefix(s.queue, s.flags, |Free(s)|);
    PromotedEntries(s, PromoteAll(s).state, n);
    ServedMany(s.log, PromoteAll(s).state.log, s.queue, n);
    served := s.queue[..n];
  }

  lemma BootOrder(s: State, id: string) returns (served: seq<int>)
    requires Inv(s)
    ensures TookPrefix(s, BootDone(s, id).state.queue, served)
    ensures ServedTeams(BootDone(s, id).state.log) == ServedTeams(s.log) + served
  {
    hide Inv, PromoteTo, FreeIn, ServedTeams;
    served := [];
    if Boots(s, id) {
      var b := Idled(s, id);
      if Free(b) != [] && s.queue != [] {
        BootKeeps(s, id);
        PromoteNextExact(b);
        if s.queue[0] in s.flags {
          served := s.queue[..1];
          ServedMany(b.log, PromoteNext(b).state.log, s.queue, 1);
        }
      }
    }
  }

  // ---------------------------------------------------------------------
  // Overtaking
  // ---------------------------------------------------------------------

  /** t asks while others wait and an instance is idle, and gets the instance. */
  ghost predicate Overtakes(s: State, t: int) {
    s.queue != [] && MayAsk(s, t) && Free(s) != [] && t in s.flags
  }

  lemma AdmitOrder(s: State, t: int) returns (served: seq<int>)
    ensures ServedTeams(Admit(s, t).0.log) == ServedTeams(s.log) + served
    ensures Admit(s, t).0.queue == if Free(s) == [] then s.queue + [t] else s.queue
    ensures served == if Free(s) != [] && t in s.flags then [t] else []
  {
    hide ServedTeams, FreeIn;
    AdmitOutcome(s, t);
    var free := Free(s);
    if free == [] || t !in s.flags {
      served := [];
    } else {
      served := [t];
      ServedAppend(s.log, Granted(t, free[0], Read(s).clock.now));
    }
  }

  lemma LeaseOrder(s: State, t: int) returns (served: seq<int>)
    ensures ServedTeams(Lease(s, t).0.log) == ServedTeams(s.log) + served
    ensures served == if MayAsk(s, t) && Free(s) != [] && t in s.flags then [t] else []
    ensures Lease(s, t).0.queue == s.queue || (served == [] && Lease(s, t).0.queue == s.queue + [t])
  {
    hide Admit, CurrentLease, RateVerdict, CoolVerdict, FreeIn, ServedTeams;
    TestedFrame(s, t);
    served := [];
    if MayAsk(s, t) {
      served := AdmitOrder(Tested(s, t), t);
    }
  }

  /** A newcomer is served ahead of the queue in exactly the states Overtakes describes. */
  lemma OvertakesIff(s: State, t: int)
    requires s.queue != []
    ensures ServedTeams(Step(s, AskLease(t)).log) != ServedTeams(s.log) <==> Overtakes(s, t)
    ensures Overtakes(s, t) ==>
              ServedTeams(Step(s, AskLease(t)).log) == ServedTeams(s.log) + [t] && Step(s, AskLease(t)).queue == s.queue
  {
    hide ServedTeams, Lease, MayAsk, Free;
    var served := LeaseOrder(s, t);
    assert served == [] ==> ServedTeams(s.log) + served == ServedTeams(s.log);
  }

  /** Which teams a step serves, and what it does to the queue. */
  ghost predicate StepOrdered(s: State, e: Event, r: State, served: seq<int>) {
    match e
    case PushFlag(_) => served == [] && r.queue == s.queue
    case AskStatus(_) => served == [] && r.queue == s.queue
    case AskRelease(t) => served == [] && (r.queue == s.queue || r.queue == Without(s.queue, t))
    case AskLease(t) =>
      || (served == [] && (r.queue == s.queue || r.queue == s.queue + [t]))
      || (served == [t] && r.queue == s.queue && t !in s.queue && (s.queue == [] || Overtakes(s, t)))
    case ReaperTick(_) => TookPrefix(s, r.queue, served)
    case Booted(_) => TookPrefix(s, r.queue, served)
  }

  lemma StepOrder(s: State, e: Event) returns (served: seq<int>)
    requires Inv(s)
    ensures StepOrdered(s, e, Step(s, e), served)
    ensures ServedTeams(Step(s, e).log) == ServedTeams(s.log) + served
  {
    hide Inv, Lease, PromoteAll, FreeIn, CurrentLease, BootDone, ReclaimAll, ServedTeams, Reclaim, RateVerdict,
      CoolVerdict;
    match e
    case PushFlag(t) => served := [];
    case AskLease(t) => served := LeaseOrder(s, t);
    case AskRelease(t) =>
      served := [];
      ReclaimKeeps(s, t);
      ReclaimServesNobody(s, t);
    case AskStatus(t) =>
      served := [];
      StatusLog(s, t);
      StatusFrame(s, t);
    case ReaperTick(now) =>
      var teams := ExpiredIn(s.order, s.instances, now);
      ReclaimAllKeeps(s, teams);
      ReclaimAllServesNobody(s, teams);
      served := PassOrder(ReclaimAll(s, teams));
    case Booted(id) => served := BootOrder(s, id);
  }

  // ---------------------------------------------------------------------
  // Nobody overtakes
  // ---------------------------------------------------------------------

  /** a waits at index i, with b nowhere before it; b may stand behind a or not queue at all. */
  ghost predicate Ahead(queue: seq<int>, a: int, b: int, i: nat) {
    i < |queue| && queue[i] == a && forall j :: 0 <= j <= i ==> queue[j] != b
  }

  lemma {:induction false} AheadWithout(queue: seq<int>, t: int, a: int, b: int, i: nat) returns (k: nat)
    requires Ahead(queue, a, b, i) && t != a
    ensures Ahead(Without(queue, t), a, b, k)
    decreases |queue|
  {
    if queue[0] == t {
      k := i - 1;
    } else if i == 0 {
      k := 0;
    } else {
      assert Ahead(queue[1..], a, b, i - 1);
      var rest := AheadWithout(queue[1..], t, a, b, i - 1);
      k := rest + 1;
    }
  }

  /** After a step in which a was not served, a is still ahead and b was not served either. */
  lemma AheadStep(s: State, e: Event, a: int, b: int, i: nat, r: State, served: seq<int>) returns (k: nat)
    requires Ahead(s.queue, a, b, i) && StepOrdered(s, e, r, served) && a !in served && e != AskRelease(a)
    requires a in s.flags && !(e == AskLease(b) && Overtakes(s, b))
    ensures Ahead(r.queue, a, b, k) && b !in served
  {
    hide Overtakes;
    match e
    case AskRelease(t) =>
      k := i;
      if r.queue != s.queue {
        k := AheadWithout(s.queue, t, a, b, i);
      }
    case ReaperTick(_) => k := AheadRest(s, r.queue, served, a, b, i);
    case Booted(_) => k := AheadRest(s, r.queue, served, a, b, i);
    case PushFlag(_) => k := i;
    case AskStatus(_) => k := i;
    case AskLease(_) => k := i;
  }

  lemma AheadRest(s: State, queue: seq<int>, served: seq<int>, a: int, b: int, i: nat) returns (k: nat)
    requires Ahead(s.queue, a, b, i) && TookPrefix(s, queue, served) && a !in served && a in s.flags
    ensures Ahead(queue, a, b, k) && b !in served
  {
    assert i >= |served|;
    k := if queue == s.queue[|served|..] then i - |served| else i - |served| - 1;
  }

  /** At some point of the run b asks and overtakes whoever waits. */
  ghost predicate Overtaken(s: State, events: seq<Event>, b: int)
    decreases |events|
  {
    events != [] && ((events[0] == AskLease(b) && Overtakes(s, b)) || Overtaken(Step(s, events[0]), events[1..], b))
  }

  /** Nobody is ever removed from the record of served teams. */
  lemma {:induction false} RunExtends(s: State, events: seq<Event>)
    requires Inv(s)
    ensures Inv(Run(s, events)) && ServedTeams(s.log) <= ServedTeams(Run(s, events).log)
    decreases |events|
  {
    hide Inv, Step, ServedTeams, StepOrdered;
    if events != [] {
      StepKeeps(s, events[0]);
      var served := StepOrder(s, events[0]);
      RunExtends(Step(s, events[0]), events[1..]);
    }
  }

  /** In every run, b is served only after a, if a waited ahead of b with its flag pushed, did not leave the queue
      itself, and b did not find an idle instance beside the queue when it asked. */
  lemma {:induction false} NoOvertaking(s: State, events: seq<Event>, a: int, b: int, i: nat, k: nat)
    requires Inv(s) && a in s.flags && !Overtaken(s, events, b)
    requires Ahead(s.queue, a, b, i) && AskRelease(a) !in events
    requires |ServedTeams(s.log)| <= k < |ServedTeams(Run(s, events).log)|
    requires ServedTeams(Run(s, events).log)[k] == b
    ensures a in ServedTeams(Run(s, events).log)[|ServedTeams(s.log)|..k]
    decreases |events|
  {
    hide Inv, Step, ServedTeams, StepOrdered, Overtakes;
    if events != [] {
      var e := events[0];
      var r := Step(s, e);
      StepKeeps(s, e);
      StepPushes(s, e);
      var served := StepOrder(s, e);
      RunExtends(r, events[1..]);
      var was, mid, all := ServedTeams(s.log), ServedTeams(r.log), ServedTeams(Run(s, events).log);
      assert all == ServedTeams(Run(r, events[1..]).log);
      if a in served {
        ServedFirst(s, e, r, served, a, b, i, was, all, k);
      } else {
        var j := AheadStep(s, e, a, b, i, r, served);
        NoOvertaking(r, events[1..], a, b, j, k);
        var x :| |mid| <= x < k && all[x] == a;
        assert all[|was|..k][x - |was|] == a;
      }
    }
  }

  lemma ServedFirst(s: State, e: Event, r: State, served: seq<int>, a: int, b: int, i: nat, was: seq<int>,
                    all: seq<int>, k: nat)
    requires StepOrdered(s, e, r, served) && a in served && Ahead(s.queue, a, b, i) && was + served <= all
    requires |was| <= k < |all| && all[k] == b
    ensures a in all[|was|..k]
  {
    hide Overtakes;
    var x :| 0 <= x < |served| && served[x] == a;
    assert served <= s.queue;
    var first := if i < x then i else x;
    assert all[|was| + first] == (was + served)[|was| + first] == a;
    assert forall j :: 0 <= j <= first ==> all[|was| + j] == (was + served)[|was| + j] == s.queue[j] != b;
    assert all[|was|..k][first] == a;
  }

  // ---------------------------------------------------------------------
  // Runs in which nobody is stranded
  // ---------------------------------------------------------------------

  /** The boots that leave the instance idle beside a waiting team. */
  ghost predicate StrandingBoot(s: State, e: Event) {
    e.Booted? && Boots(s, e.id) && |s.queue| >= 2 && s.queue[0] !in s.flags
  }

  ghost predicate NoStrandingBoot(s: State, events: seq<Event>)
    decreases |events|
  {
    events == [] || (!StrandingBoot(s, events[0]) && NoStrandingBoot(Step(s, events[0]), events[1..]))
  }

  /** No instance idles beside a waiting team anywhere in the run. */
  ghost predicate AlwaysServed(s: State, events: seq<Event>)
    decreases |events|
  {
    Served(s) && (events == [] || AlwaysServed(Step(s, events[0]), events[1..]))
  }

  /** Exactly the runs without such a boot keep idle instances and waiting teams apart throughout. */
  lemma {:induction false} AlwaysServedIff(s: State, events: seq<Event>)
    requires Inv(s) && Served(s)
    ensures AlwaysServed(s, events) <==> NoStrandingBoot(s, events)
    decreases |events|
  {
    hide Inv, Served, Step;
    if events != [] {
      StepKeeps(s, events[0]);
      StepStrandedIff(s, events[0]);
      if Served(Step(s, events[0])) {
        AlwaysServedIff(Step(s, events[0]), events[1..]);
      } else {
        assert !AlwaysServed(Step(s, events[0]), events[1..]);
      }
    }
  }

  /** Nor can anybody overtake in them. */
  lemma {:induction false} NobodyOvertaken(s: State, events: seq<Event>, b: int)
    requires AlwaysServed(s, events)
    ensures !Overtaken(s, events, b)
    decreases |events|
  {
    hide Step, MayAsk, Free;
    if events != [] {
      NobodyOvertaken(Step(s, events[0]), events[1..], b);
    }
  }

  /** Every team pushes its flag before it asks for a lease. */
  ghost predicate FlagsFirst(flags: set<int>, events: seq<Event>)
    decreases |events|
  {
    if events == [] then true
    else
      && (events[0].AskLease? ==> events[0].team in flags)
      && FlagsFirst(if events[0].PushFlag? then flags + {events[0].team} else flags, events[1..])
  }

  lemma FlaggedHead(s: State, e: Event)
    requires Flagged(s)
    ensures !StrandingBoot(s, e)
  {
    if s.queue != [] {
      var head := s.queue[0];
      assert head in s.queue && head in s.flags;
    }
  }

  /** One way to have no stranding boot. */
  lemma {:induction false} FlagsFirstSuffices(s: State, events: seq<Event>)
    requires Inv(s) && Served(s) && Flagged(s) && FlagsFirst(s.flags, events)
    ensures NoStrandingBoot(s, events)
    decreases |events|
  {
    hide Inv, Served, Step, Boots;
    if events != [] {
      StepKeeps(s, events[0]);
      StepServes(s, events[0]);
      StepPushes(s, events[0]);
      FlaggedHead(s, events[0]);
      FlagsFirstSuffices(Step(s, events[0]), events[1..]);
    }
  }

  lemma {:induction false} ServedAtEnd(s: State, events: seq<Event>)
    requires AlwaysServed(s, events)
    ensures Served(Run(s, events))
    decreases |events|
  {
    hide Served, Step;
    if events != [] {
      ServedAtEnd(Step(s, events[0]), events[1..]);
    }
  }

  /** From the start of the service on, if every team pushes its flag before it asks, no instance idles while a team
      waits. */
  lemma NeverStranded(config: Config, order: seq<string>, clock: Clock, events: seq<Event>)
    requires Distinct(order) && "" !in order && FlagsFirst({}, events)
    ensures Served(Run(Initial(config, order, clock), events))
    ensures AlwaysServed(Initial(config, order, clock), events)
  {
    hide Inv, Run, Step, NoStrandingBoot, AlwaysServed, FlagsFirst;
    var s := Initial(config, order, clock);
    InitialInv(config, order, clock);
    assert forall id :: id in s.order ==> !IsFree(s.instances, id);
    FlagsFirstSuffices(s, events);
    AlwaysServedIff(s, events);
    ServedAtEnd(s, events);
  }

  /** First come, first served, in every run without a stranding boot. */
  lemma FirstComeFirstServed(s: State, events: seq<Event>, a: int, b: int, i: nat, k: nat)
    requires Inv(s) && Served(s) && NoStrandingBoot(s, events) && a in s.flags
    requires Ahead(s.queue, a, b, i) && AskRelease(a) !in events
    requires |ServedTeams(s.log)| <= k < |ServedTeams(Run(s, events).log)|
    requires ServedTeams(Run(s, events).log)[k] == b
    ensures a in ServedTeams(Run(s, events).log)[|ServedTeams(s.log)|..k]
  {
    hide Inv, Served, Run, NoStrandingBoot, AlwaysServed, Overtaken, ServedTeams;
    AlwaysServedIff(s, events);
    NobodyOvertaken(s, events, b);
    NoOvertaking(s, events, a, b, i, k);
  }
}
