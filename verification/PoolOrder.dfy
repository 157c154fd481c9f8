/**
 Order of service. A promotion pass serves the waiting teams in queue order until
 the free instances or the teams run out; as long as every team has its flag
 before it asks, no instance stays idle while a team waits and nobody overtakes.
 */
module PoolOrder {
  import opened Options
  import opened PoolModel
  import opened PoolSafety
  import opened PoolRuns

  function Min(a: nat, b: nat): nat {
    if a < b then a else b
  }

  // ---------------------------------------------------------------------
  // The free list
  // ---------------------------------------------------------------------

  lemma {:induction false} FreeSplits(a: seq<string>, b: seq<string>, instances: map<string, Instance>)
    ensures FreeIn(a + b, instances) == FreeIn(a, instances) + FreeIn(b, instances)
  {
    if a == [] {
      assert a + b == b;
    } else {
      assert (a + b)[1..] == a[1..] + b;
      FreeSplits(a[1..], b, instances);
    }
  }

  /** Idle instances are listed in pool order: the one handed out next is the first idle one of the configuration. */
  lemma {:induction false} FirstFree(order: seq<string>, instances: map<string, Instance>, k: nat)
    requires k < |order| && IsFree(instances, order[k])
    requires forall j :: 0 <= j < k ==> !IsFree(instances, order[j])
    ensures FreeIn(order, instances) != [] && FreeIn(order, instances)[0] == order[k]
    decreases k
  {
    if k > 0 {
      hide IsFree;
      forall j | 0 <= j < k - 1 ensures !IsFree(instances, order[1..][j]) {
        assert order[1..][j] == order[j + 1];
      }
      FirstFree(order[1..], instances, k - 1);
    }
  }

  lemma {:induction false} FreeElsewhere(order: seq<string>, instances: map<string, Instance>, id: string, i: Instance)
    requires id !in order
    ensures FreeIn(order, instances[id := i]) == FreeIn(order, instances)
  {
    if order != [] {
      FreeElsewhere(order[1..], instances, id, i);
    }
  }

  lemma {:induction false} FreeTaken(order: seq<string>, instances: map<string, Instance>, i: Instance)
    requires Distinct(order) && FreeIn(order, instances) != [] && !(i.phase.Idle? && i.team.None?)
    ensures FreeIn(order, instances[FreeIn(order, instances)[0] := i]) == FreeIn(order, instances)[1..]
  {
    var id := FreeIn(order, instances)[0];
    if IsFree(instances, order[0]) {
      FreeElsewhere(order[1..], instances, id, i);
    } else {
      FreeTaken(order[1..], instances, i);
    }
  }

  lemma {:induction false} FreeGains(order: seq<string>, instances: map<string, Instance>, id: string, i: Instance)
    requires Distinct(order) && FreeIn(order, instances) == []
    ensures |FreeIn(order, instances[id := i])| <= 1
  {
    if order != [] {
      if order[0] == id {
        FreeElsewhere(order[1..], instances, id, i);
      } else {
        FreeGains(order[1..], instances, id, i);
      }
    }
  }

  // ---------------------------------------------------------------------
  // Promotion, exactly
  // ---------------------------------------------------------------------

  /** How many of the first limit teams have a flag before one has none. */
  function FlaggedPrefix(queue: seq<int>, flags: set<int>, limit: nat): (n: nat)
    ensures n <= |queue| && n <= limit
    ensures forall i :: 0 <= i < n ==> queue[i] in flags
    ensures n < Min(|queue|, limit) ==> queue[n] !in flags
  {
    if queue == [] || limit == 0 || queue[0] !in flags then 0
    else 1 + FlaggedPrefix(queue[1..], flags, limit - 1)
  }

  ghost predicate Serves(e: Entry, t: int, id: string) {
    e.Granted? && e.team == t && e.id == id
  }

  /** The first waiting team has taken the first free instance. */
  ghost predicate ServedHead(s: State, p: State)
    requires s.queue != [] && Free(s) != []
  {
    && |p.log| == |s.log| + 1 && p.log[..|s.log|] == s.log
    && Serves(p.log[|s.log|], s.queue[0], Free(s)[0])
    && Free(s)[0] in p.instances
    && p.instances[Free(s)[0]].team == Some(s.queue[0])
    && p.instances == s.instances[Free(s)[0] := p.instances[Free(s)[0]]]
  }

  lemma PromoteNextExact(s: State)
    requires Inv(s) && Free(s) != [] && s.queue != []
    ensures PromoteNext(s).state.queue == s.queue[1..]
    ensures PromoteNext(s).state.flags == s.flags && PromoteNext(s).state.order == s.order
    ensures PromoteNext(s).ok <==> s.queue[0] in s.flags
    ensures !PromoteNext(s).ok ==> PromoteNext(s).state.instances == s.instances && PromoteNext(s).state.log == s.log
                                   && Free(PromoteNext(s).state) == Free(s)
    ensures PromoteNext(s).ok ==> ServedHead(s, PromoteNext(s).state)
    ensures PromoteNext(s).ok ==> Free(PromoteNext(s).state) == Free(s)[1..]
  {
    hide Inv, Ready, PromoteTo, TeamHistory, ServedHead, FreeIn, CoolVerdict;
    var free := Free(s);
    assert free[0] in free;
    ShapeOf(s);
    HeadIsServed(s, free[0]);
    OfferedKeeps(s);
    if s.queue[0] in s.flags {
      OfferTaken(s, Offered(s));
    }
  }

  lemma OfferTaken(s: State, o: State)
    requires s.queue != [] && Free(s) != [] && Distinct(s.order) && s.queue[0] in s.flags
    requires o.instances == s.instances && o.log == s.log && o.flags == s.flags && o.order == s.order
    requires Free(s)[0] in s.instances
    ensures ServedHead(s, Assign(o, s.queue[0], Free(s)[0]).state)
    ensures Free(Assign(o, s.queue[0], Free(s)[0]).state) == Free(s)[1..]
  {
    hide FreeIn;
    var r := Assign(o, s.queue[0], Free(s)[0]).state;
    FreeTaken(s.order, s.instances, r.instances[Free(s)[0]]);
    assert r.log[..|s.log|] == s.log;
  }

  lemma ShapeOf(s: State)
    requires Inv(s)
    ensures Shape(s)
  {
  }

  /** What a promotion pass leaves behind when it has served n teams from s. */
  ghost predicate Promoted(s: State, r: State, n: nat) {
    && n <= |s.queue| && n <= |Free(s)|
    && r.flags == s.flags && r.order == s.order
    && Free(r) == Free(s)[n..]
    && |r.log| == |s.log| + n && r.log[..|s.log|] == s.log
    && (forall i :: 0 <= i < n ==> Serves(r.log[|s.log| + i], s.queue[i], Free(s)[i]))
    && (forall id :: id in s.instances && id !in Free(s)[..n] ==>
                       id in r.instances && r.instances[id] == s.instances[id])
    && (forall i :: 0 <= i < n ==>
                      Free(s)[i] in r.instances && r.instances[Free(s)[i]].team == Some(s.queue[i]))
  }

  lemma PromotedNone(s: State, r: State)
    requires r.flags == s.flags && r.order == s.order && r.log == s.log && r.instances == s.instances
    ensures Promoted(s, r, 0)
  {
    assert r.log[..|s.log|] == s.log && Free(s)[0..] == Free(r);
  }

  /** The closed form of the promotion loop, for queues with and without missing flags. */
  lemma {:induction false} PromoteAllExact(s: State)
    requires Inv(s)
    ensures var n := FlaggedPrefix(s.queue, s.flags, |Free(s)|);
            && Promoted(s, PromoteAll(s).state, n)
            && (PromoteAll(s).ok <==> n == Min(|s.queue|, |Free(s)|))
            && PromoteAll(s).state.queue == (if PromoteAll(s).ok then s.queue[n..] else s.queue[n + 1..])
    decreases |s.queue|
  {
    hide Inv, PromoteNext, Free, Promoted, Serves, ServedHead, FlaggedPrefix;
    PromotedNone(s, s);
    if Free(s) != [] && s.queue != [] {
      PromoteNextExact(s);
      PromoteNextKeeps(s);
      var p := PromoteNext(s).state;
      if PromoteNext(s).ok {
        PromoteAllExact(p);
        var n := FlaggedPrefix(p.queue, p.flags, |Free(p)|);
        DistinctFree(s);
        PromotedMore(s, p, PromoteAll(s).state, n);
      } else {
        PromotedNone(s, p);
      }
    }
  }

  lemma {:induction false} FreeDistinct(order: seq<string>, instances: map<string, Instance>)
    requires Distinct(order)
    ensures Distinct(FreeIn(order, instances))
  {
    if order != [] {
      FreeDistinct(order[1..], instances);
      var rest := FreeIn(order[1..], instances);
      assert order[0] !in rest;
      assert forall i :: 0 <= i < |rest| ==> rest[i] in rest;
    }
  }

  lemma DistinctFree(s: State)
    requires Inv(s)
    ensures Distinct(Free(s))
  {
    FreeDistinct(s.order, s.instances);
  }

  lemma PromotedMore(s: State, p: State, r: State, n: nat)
    requires s.queue != [] && Free(s) != [] && Distinct(Free(s))
    requires p.queue == s.queue[1..] && Free(p) == Free(s)[1..] && p.flags == s.flags && p.order == s.order
    requires ServedHead(s, p) && Promoted(p, r, n)
    ensures Promoted(s, r, n + 1)
  {
    hide Free, Serves;
    var f := Free(s);
    assert r.log[..|s.log|] == r.log[..|p.log|][..|s.log|] == s.log;
    assert r.log[|s.log|] == r.log[..|p.log|][|s.log|] == p.log[|s.log|];
    assert f[0] !in Free(p)[..n];
    forall i | 0 <= i < n + 1
      ensures Serves(r.log[|s.log| + i], s.queue[i], f[i])
      ensures f[i] in r.instances && r.instances[f[i]].team == Some(s.queue[i])
    {
      if i > 0 {
        assert Serves(r.log[|p.log| + (i - 1)], p.queue[i - 1], Free(p)[i - 1]);
      }
    }
    forall id | id in s.instances && id !in f[..n + 1]
      ensures id in r.instances && r.instances[id] == s.instances[id]
    {
      assert f[..n + 1][0] == f[0];
      forall i | 0 <= i < n
        ensures Free(p)[..n][i] != id
      {
        assert f[..n + 1][i + 1] == Free(p)[..n][i];
      }
    }
  }

  // ---------------------------------------------------------------------
  // No instance idles while a team waits
  // ---------------------------------------------------------------------

  ghost predicate Served(s: State) {
    Free(s) == [] || s.queue == []
  }

  ghost predicate Flagged(s: State) {
    forall t :: t in s.queue ==> t in s.flags
  }

  lemma {:induction false} AllFlagged(queue: seq<int>, flags: set<int>, limit: nat)
    requires forall t :: t in queue ==> t in flags
    ensures FlaggedPrefix(queue, flags, limit) == Min(|queue|, limit)
  {
    if queue != [] && limit > 0 {
      var head := queue[0];
      assert head in queue && head in flags;
      AllFlagged(queue[1..], flags, limit - 1);
    }
  }

  /** A pass strands a waiting team beside an idle instance exactly when it reaches a team without a flag
      that is not the last one waiting. */
  lemma StrandedIff(s: State)
    requires Inv(s)
    ensures var n := FlaggedPrefix(s.queue, s.flags, |Free(s)|);
            !Served(PromoteAll(s).state) <==> n < Min(|s.queue|, |Free(s)|) && n + 1 < |s.queue|
  {
    hide Inv, PromoteAll, Free;
    PromoteAllExact(s);
  }

  lemma PassServes(s: State)
    requires Inv(s) && Flagged(s)
    ensures Served(PromoteAll(s).state) && Flagged(PromoteAll(s).state) && PromoteAll(s).ok
  {
    hide Inv, PromoteAll, Free;
    PromoteAllExact(s);
    AllFlagged(s.queue, s.flags, |Free(s)|);
  }

  lemma AdmitServes(s: State, t: int)
    requires Served(s) && Flagged(s) && t in s.flags && Distinct(s.order)
    ensures Served(Admit(s, t).0) && Flagged(Admit(s, t).0)
  {
    var free := Free(s);
    if free != [] {
      assert free[0] in free;
      assert s.queue == [];
    }
  }

  lemma LeaseServes(s: State, t: int)
    requires Served(s) && Flagged(s) && t in s.flags && Distinct(s.order)
    ensures Served(Lease(s, t).0) && Flagged(Lease(s, t).0)
  {
    hide Admit, CurrentLease, RateVerdict, CoolVerdict, FreeIn;
    var cooled := CoolTested(RateTested(s, t), t);
    assert Free(cooled) == Free(s);
    assert Free(RateTested(s, t)) == Free(s);
    AdmitServes(cooled, t);
  }

  lemma BootServes(s: State, id: string)
    requires Inv(s) && Served(s) && Flagged(s) && id in s.instances && s.instances[id].phase.Booting?
    ensures Served(BootDone(s, id).state) && Flagged(BootDone(s, id).state) && BootDone(s, id).ok
  {
    hide Inv, FreeIn, PromoteTo;
    var b := s.(instances := s.instances[id := s.instances[id].(phase := Idle)]);
    BootKeeps(s, id);
    ShapeOf(s);
    if s.queue != [] {
      var head := s.queue[0];
      assert head in s.queue && head in s.flags;
      FreeGains(s.order, s.instances, id, s.instances[id].(phase := Idle));
      if Free(b) != [] {
        PromoteNextExact(b);
      }
    }
  }

  lemma ReleaseServes(s: State, t: int)
    requires Inv(s) && Served(s) && Flagged(s)
    ensures Served(Release(s, t)) && Flagged(Release(s, t))
  {
    hide Inv, Ready;
    QueueOf(s);
    WithoutOne(s.queue, t);
    if CurrentLease(s, t).Some? {
      if s.queue != [] {
      }
    } else if s.queue == [] {
    } else {
      assert Free(Release(s, t)) == Free(s);
    }
  }

  lemma QueueOf(s: State)
    requires Inv(s)
    ensures Distinct(s.queue)
  {
  }

  /** An operation by a team that has its flag keeps every idle instance and every waiting team apart. */
  lemma StepServes(s: State, e: Event)
    requires Inv(s) && Served(s) && Flagged(s) && (e.AskLease? ==> e.team in s.flags)
    ensures Served(Step(s, e)) && Flagged(Step(s, e))
  {
    hide Inv, Lease, Release, PromoteAll, FreeIn, CurrentLease, BootDone, ReclaimAll;
    ShapeOf(s);
    match e
    case PushFlag(t) =>
    case AskLease(t) => LeaseServes(s, t);
    case AskRelease(t) => ReleaseServes(s, t);
    case AskStatus(t) =>
      assert Free(Status(s, t)) == Free(s);
    case ReaperTick(now) =>
      var teams := ExpiredIn(s.order, s.instances, now);
      ReclaimAllKeeps(s, teams);
      PassServes(ReclaimAll(s, teams));
    case Booted(id) =>
      if id in s.instances && s.instances[id].phase.Booting? {
        BootServes(s, id);
      } else {
        NotBooting(s, id);
      }
  }

  lemma NotBooting(s: State, id: string)
    requires !(id in s.instances && s.instances[id].phase.Booting?)
    ensures BootDone(s, id) == Stepped(s, true)
  {
  }
}
