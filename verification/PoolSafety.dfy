/**
 What every reachable state of the lease scheduler satisfies: teams and instances
 point at each other, the queue holds distinct teams without a lease, and the
 history of grants keeps the hourly limit and the cooldown.
 */
module PoolSafety {
  import opened Options
  import opened PoolModel

  // ---------------------------------------------------------------------
  // The invariant
  // ---------------------------------------------------------------------

  /** When t was granted leases, oldest first. */
  ghost function Grants(log: seq<Entry>, t: int): seq<real>
    decreases |log|
  {
    if log == [] then []
    else
      var e := log[|log| - 1];
      Grants(log[..|log| - 1], t) + (if e.Granted? && e.team == t then [e.at] else [])
  }

  ghost predicate Distinct<T(!new)>(s: seq<T>) {
    forall i, j :: 0 <= i < j < |s| ==> s[i] != s[j]
  }

  ghost predicate Ascending(times: seq<real>) {
    forall i, j :: 0 <= i < j < |times| ==> times[i] <= times[j]
  }

  /** Any rateMax + 1 grants in a row span at least an hour. */
  ghost predicate Spaced(times: seq<real>, rateMax: int) {
    forall i, j :: 0 <= i < j < |times| && j == i + rateMax ==> times[i] + WINDOW <= times[j]
  }

  ghost predicate Before(times: seq<real>, now: real) {
    forall i :: 0 <= i < |times| ==> times[i] <= now
  }

  /** kept is the recent end of all, and what it misses is at least an hour old. */
  ghost predicate KeepsRecent(kept: seq<real>, all: seq<real>, now: real) {
    && |kept| <= |all|
    && (forall i :: 0 <= i < |kept| ==> kept[i] == all[|all| - |kept| + i])
    && (forall i :: 0 <= i < |all| - |kept| ==> all[i] + WINDOW <= now)
  }

  ghost predicate FreedBy(log: seq<Entry>, t: int, last: Option<real>) {
    forall k :: 0 <= k < |log| && log[k].Freed? && log[k].team == t ==> last.Some? && log[k].at <= last.value
  }

  ghost predicate TeamHistory(config: Config, log: seq<Entry>, clock: Clock, ts: Team, t: int) {
    var g := Grants(log, t);
    var grantsKept := Ascending(g) && Before(g, clock.now) && Spaced(g, config.rateMax)
                      && KeepsRecent(ts.acquisitions, g, clock.now);
    var releaseKept := FreedBy(log, t, ts.releasedAt) && (ts.releasedAt.Some? ==> ts.releasedAt.value <= clock.now);
    grantsKept && releaseKept
  }

  /** One more grant now would keep the hourly limit. */
  ghost predicate HasRoom(times: seq<real>, rateMax: int, now: real) {
    forall i :: 0 <= i < |times| && i == |times| - rateMax ==> times[i] + WINDOW <= now
  }

  ghost predicate Rested(config: Config, ts: Team, now: real) {
    ts.releasedAt.Some? ==> now - ts.releasedAt.value >= config.cooldown as real
  }

  /** t may be granted a lease at any time from now on. */
  ghost predicate Ready(s: State, t: int) {
    var admissible := HasRoom(Grants(s.log, t), s.config.rateMax, s.clock.now)
                      && Rested(s.config, TeamOf(s, t), s.clock.now);
    TeamOf(s, t).instance.None? && admissible
  }

  ghost predicate CooldownKept(log: seq<Entry>, cooldown: int) {
    forall i, j :: 0 <= i < j < |log| && log[i].Freed? && log[j].Granted? && log[i].team == log[j].team ==>
                     log[j].at - log[i].at >= cooldown as real
  }

  ghost predicate Shape(s: State) {
    && Distinct(s.order)
    && (forall id :: id in s.order <==> id in s.instances)
    && "" !in s.instances
  }

  /** Team to instance and instance to team are inverse partial maps. */
  ghost predicate Linked(s: State) {
    && (forall id :: id in s.instances && s.instances[id].team.Some? ==>
                       TeamOf(s, s.instances[id].team.value).instance == Some(id))
    && (forall t {:trigger TeamOf(s, t)} :: TeamOf(s, t).instance.Some? ==>
                  && TeamOf(s, t).instance.value in s.instances
                  && s.instances[TeamOf(s, t).instance.value].team == Some(t)
                  && s.instances[TeamOf(s, t).instance.value].expires == TeamOf(s, t).leaseExpires)
  }

  ghost predicate Phased(i: Instance) {
    && (i.phase.Leased? <==> i.team.Some?)
    && (i.expires.Some? <==> i.team.Some?)
  }

  ghost predicate Lifecycles(s: State) {
    forall id :: id in s.instances ==> Phased(s.instances[id])
  }

  ghost predicate Queue(s: State) {
    && Distinct(s.queue)
    && forall t :: t in s.queue ==> Ready(s, t)
  }

  ghost predicate Histories(s: State) {
    forall t {:trigger TeamOf(s, t)} :: TeamHistory(s.config, s.log, s.clock, TeamOf(s, t), t)
  }

  /** A lease runs for exactly leaseSeconds from the moment it was granted. */
  ghost predicate TermKept(config: Config, log: seq<Entry>, t: int, expires: Option<real>) {
    var g := Grants(log, t);
    g != [] && expires == Some(g[|g| - 1] + config.leaseSeconds as real)
  }

  ghost predicate Terms(s: State) {
    forall id :: id in s.instances && s.instances[id].team.Some? ==>
                   TermKept(s.config, s.log, s.instances[id].team.value, s.instances[id].expires)
  }

  /** What holds in every reachable state, as one fact. */
  ghost predicate Inv(s: State) {
    var tables := Shape(s) && Linked(s) && Lifecycles(s) && Terms(s);
    var reachable := tables && Queue(s) && Histories(s) && CooldownKept(s.log, s.config.cooldown);
    reachable
  }

  // ---------------------------------------------------------------------
  // Time only moves forward
  // ---------------------------------------------------------------------

  ghost predicate SameButTime(s: State, r: State) {
    r == s.(clock := r.clock) && r.clock.now >= s.clock.now
  }

  lemma TimePasses(s: State, r: State)
    requires Inv(s) && SameButTime(s, r)
    ensures Inv(r)
    ensures forall t :: Ready(s, t) ==> Ready(r, t)
  {
    hide TeamHistory, Grants, CooldownKept;
    assert forall t :: TeamOf(r, t) == TeamOf(s, t);
    forall t
      ensures TeamHistory(r.config, r.log, r.clock, TeamOf(r, t), t)
    {
      LaterHistory(s.config, s.log, s.clock, r.clock, TeamOf(s, t), t);
    }
  }

  lemma LaterHistory(config: Config, log: seq<Entry>, was: Clock, clock: Clock, ts: Team, t: int)
    requires TeamHistory(config, log, was, ts, t) && was.now <= clock.now
    ensures TeamHistory(config, log, clock, ts, t)
  {
  }

  lemma ReadKeeps(s: State)
    requires Inv(s)
    ensures Inv(Read(s)) && SameButTime(s, Read(s))
    ensures forall t :: Ready(s, t) ==> Ready(Read(s), t)
  {
    TimePasses(s, Read(s));
  }

  lemma CoolTestedKeeps(s: State, t: int)
    requires Inv(s)
    ensures Inv(CoolTested(s, t)) && SameButTime(s, CoolTested(s, t))
    ensures forall u :: Ready(s, u) ==> Ready(CoolTested(s, t), u)
    ensures CoolVerdict(CoolTested(s, t), t).None? <==> Rested(s.config, TeamOf(s, t), CoolTested(s, t).clock.now)
  {
    TimePasses(s, CoolTested(s, t));
  }

  // ---------------------------------------------------------------------
  // The rate test
  // ---------------------------------------------------------------------

  /** Pruning keeps exactly the recent end of an ascending list. */
  lemma {:induction false} PruneIsSuffix(times: seq<real>, start: real) returns (k: nat)
    requires Ascending(times)
    ensures k <= |times| && Prune(times, start) == times[k..]
    ensures forall i :: 0 <= i < k ==> times[i] <= start
    ensures forall i :: k <= i < |times| ==> times[i] > start
  {
    if times == [] {
      k := 0;
    } else {
      var tail := times[1..];
      assert tail != [] ==> times[0] <= tail[0];
      assert times == [times[0]] + tail;
      var rest := PruneIsSuffix(tail, start);
      if times[0] > start {
        k := 0;
      } else {
        k := rest + 1;
        assert times[k..] == tail[rest..];
        assert forall i :: 1 <= i < |times| ==> times[i] == tail[i - 1];
      }
    }
  }

  lemma PruneKeepsRecent(a: seq<real>, g: seq<real>, now: real)
    requires Ascending(g) && KeepsRecent(a, g, now)
    ensures Ascending(a) && KeepsRecent(Prune(a, now - WINDOW), g, now)
  {
    forall i, j | 0 <= i < j < |a|
      ensures a[i] <= a[j]
    {
      assert g[|g| - |a| + i] <= g[|g| - |a| + j];
    }
    var k := PruneIsSuffix(a, now - WINDOW);
    var p := Prune(a, now - WINDOW);
    assert forall i :: 0 <= i < |p| ==> p[i] == a[k + i];
    forall i | 0 <= i < |g| - |p|
      ensures g[i] + WINDOW <= now
    {
      var j := i - (|g| - |a|);
      if j >= 0 {
        assert a[j] == g[i];
      }
    }
  }

  lemma SpacedAt(g: seq<real>, i: nat, rateMax: int)
    requires Spaced(g, rateMax) && rateMax >= 1 && i + rateMax < |g|
    ensures g[i] + WINDOW <= g[i + rateMax]
  {
  }

  /** The number of times kept says whether there is room for one more. */
  lemma PruneCounts(a: seq<real>, g: seq<real>, now: real, rateMax: int)
    requires Ascending(g) && KeepsRecent(a, g, now) && Spaced(g, rateMax) && Before(g, now) && rateMax >= 1
    ensures |Prune(a, now - WINDOW)| <= rateMax
    ensures |Prune(a, now - WINDOW)| < rateMax <==> HasRoom(g, rateMax, now)
  {
    hide Spaced, Prune;
    PruneKeepsRecent(a, g, now);
    var k := PruneIsSuffix(a, now - WINDOW);
    var p := Prune(a, now - WINDOW);
    if |p| > 0 {
      assert p[0] == a[k] && p[0] == g[|g| - |p|];
      assert p[0] + WINDOW > now;
    }
    if |p| > rateMax {
      SpacedAt(g, |g| - |p|, rateMax);
    }
  }

  lemma PrunedHistory(config: Config, log: seq<Entry>, clock: Clock, ts: Team, t: int)
    requires TeamHistory(config, log, clock, ts, t)
    ensures TeamHistory(config, log, clock, ts.(acquisitions := Prune(ts.acquisitions, clock.now - WINDOW)), t)
    ensures |Prune(ts.acquisitions, clock.now - WINDOW)| <= config.rateMax
    ensures |Prune(ts.acquisitions, clock.now - WINDOW)| < config.rateMax <==>
            HasRoom(Grants(log, t), config.rateMax, clock.now)
  {
    PruneKeepsRecent(ts.acquisitions, Grants(log, t), clock.now);
    PruneCounts(ts.acquisitions, Grants(log, t), clock.now, config.rateMax);
  }

  lemma HistoryOf(s: State, t: int)
    requires Inv(s)
    ensures TeamHistory(s.config, s.log, s.clock, TeamOf(s, t), t)
  {
  }

  lemma Reworded(s: State, t: int, times: seq<real>)
    requires Inv(s)
    requires TeamHistory(s.config, s.log, s.clock, TeamOf(s, t).(acquisitions := times), t)
    ensures Inv(WithTeam(s, t, TeamOf(s, t).(acquisitions := times)))
    ensures forall u :: Ready(s, u) ==> Ready(WithTeam(s, t, TeamOf(s, t).(acquisitions := times)), u)
  {
    hide TeamHistory, HasRoom;
    var q := WithTeam(s, t, TeamOf(s, t).(acquisitions := times));
    assert forall u :: u != t ==> TeamOf(q, u) == TeamOf(s, u);
    assert TeamOf(q, t) == TeamOf(s, t).(acquisitions := times);
  }

  /** Recording a pruned list changes nothing else about the team. */
  lemma RateTestedKeeps(s: State, t: int)
    requires Inv(s)
    ensures Inv(RateTested(s, t))
    ensures forall u :: Ready(s, u) ==> Ready(RateTested(s, t), u)
    ensures |TeamOf(RateTested(s, t), t).acquisitions| <= s.config.rateMax
    ensures RateVerdict(RateTested(s, t), t).None? <==>
            HasRoom(Grants(s.log, t), s.config.rateMax, Read(s).clock.now)
  {
    hide Inv, TeamHistory, HasRoom, Grants, Ready, Prune;
    ReadKeeps(s);
    var r := Read(s);
    var times := Prune(TeamOf(r, t).acquisitions, r.clock.now - WINDOW);
    HistoryOf(r, t);
    PrunedHistory(r.config, r.log, r.clock, TeamOf(r, t), t);
    Reworded(r, t, times);
  }

  // ---------------------------------------------------------------------
  // Granting and ending a lease
  // ---------------------------------------------------------------------

  lemma GrantsAppend(log: seq<Entry>, e: Entry, t: int)
    ensures Grants(log + [e], t) == if e.Granted? && e.team == t then Grants(log, t) + [e.at] else Grants(log, t)
  {
    assert (log + [e])[..|log|] == log;
    assert Grants(log, t) + [] == Grants(log, t);
  }

  /** A grant now, with room for it, extends a good history. */
  lemma GrantExtends(g: seq<real>, a: seq<real>, rateMax: int, was: real, now: real)
    requires Ascending(g) && Before(g, was) && Spaced(g, rateMax) && HasRoom(g, rateMax, was) && was <= now
    requires KeepsRecent(a, g, was) && rateMax >= 1
    ensures Ascending(g + [now]) && Before(g + [now], now) && Spaced(g + [now], rateMax)
    ensures KeepsRecent(a + [now], g + [now], now)
  {
  }

  lemma FreedByAppend(log: seq<Entry>, e: Entry, t: int, last: Option<real>, next: Option<real>)
    requires FreedBy(log, t, last)
    requires last.Some? ==> next.Some? && last.value <= next.value
    requires e.Freed? && e.team == t ==> next.Some? && e.at <= next.value
    ensures FreedBy(log + [e], t, next)
  {
  }

  lemma GrantedHistory(config: Config, log: seq<Entry>, was: Clock, clock: Clock, ts: Team, next: Team, t: int,
                       id: string)
    requires TeamHistory(config, log, was, ts, t)
    requires HasRoom(Grants(log, t), config.rateMax, was.now) && was.now <= clock.now
    requires next.acquisitions == ts.acquisitions + [clock.now] && next.releasedAt == ts.releasedAt
    ensures TeamHistory(config, log + [Granted(t, id, clock.now)], clock, next, t)
  {
    hide Ascending, Before, Spaced, KeepsRecent, FreedBy, HasRoom, Grants;
    GrantsAppend(log, Granted(t, id, clock.now), t);
    GrantExtends(Grants(log, t), ts.acquisitions, config.rateMax, was.now, clock.now);
    FreedByAppend(log, Granted(t, id, clock.now), t, ts.releasedAt, next.releasedAt);
  }

  lemma LaterBounds(g: seq<real>, a: seq<real>, was: real, now: real)
    requires Before(g, was) && KeepsRecent(a, g, was) && was <= now
    ensures Before(g, now) && KeepsRecent(a, g, now)
  {
  }

  /** Nothing happens to the team itself, or it gives its lease back. */
  lemma OtherHistory(config: Config, log: seq<Entry>, was: Clock, clock: Clock, ts: Team, next: Team, t: int,
                     e: Entry)
    requires TeamHistory(config, log, was, ts, t) && was.now <= clock.now
    requires !(e.Granted? && e.team == t)
    requires next.acquisitions == ts.acquisitions
    requires if e.Freed? && e.team == t then e.at == clock.now && next.releasedAt == Some(clock.now)
             else next.releasedAt == ts.releasedAt
    ensures TeamHistory(config, log + [e], clock, next, t)
  {
    hide Ascending, Before, Spaced, KeepsRecent, FreedBy, Grants;
    GrantsAppend(log, e, t);
    LaterBounds(Grants(log, t), ts.acquisitions, was.now, clock.now);
    FreedByAppend(log, e, t, ts.releasedAt, next.releasedAt);
  }

  lemma CooldownAppend(log: seq<Entry>, e: Entry, cooldown: int, last: Option<real>)
    requires CooldownKept(log, cooldown) && FreedBy(log, e.team, last)
    requires e.Granted? && last.Some? ==> e.at - last.value >= cooldown as real
    ensures CooldownKept(log + [e], cooldown)
  {
  }

  lemma RoomStays(log: seq<Entry>, e: Entry, t: int, rateMax: int, was: real, now: real)
    requires HasRoom(Grants(log, t), rateMax, was) && was <= now
    requires !(e.Granted? && e.team == t)
    ensures HasRoom(Grants(log + [e], t), rateMax, now)
  {
    GrantsAppend(log, e, t);
  }

  lemma AssignKeeps(s: State, t: int, id: string)
    requires Inv(s) && IsFree(s.instances, id) && Ready(s, t) && t !in s.queue
    ensures Inv(Assign(s, t, id).state)
    ensures forall u :: u != t && Ready(s, u) ==> Ready(Assign(s, t, id).state, u)
  {
    hide TeamHistory, HasRoom, Grants, CooldownKept, TermKept;
    ReadKeeps(s);
    if t in s.flags {
      var r := Assign(s, t, id).state;
      AssignLinks(s, t, id);
      AssignTerms(s, t, id);
      AssignHistories(s, t, id);
      AssignReady(s, t, id);
    }
  }

  lemma AssignLinks(s: State, t: int, id: string)
    requires Linked(s) && IsFree(s.instances, id) && TeamOf(s, t).instance.None?
    requires t in s.flags
    ensures Linked(Assign(s, t, id).state)
  {
    var r := Assign(s, t, id).state;
    assert forall u :: u != t ==> TeamOf(r, u) == TeamOf(s, u);
    assert forall i :: i != id && i in s.instances ==> r.instances[i] == s.instances[i];
  }

  lemma AssignHistories(s: State, t: int, id: string)
    requires Histories(s) && CooldownKept(s.log, s.config.cooldown) && t in s.flags && id in s.instances
    requires HasRoom(Grants(s.log, t), s.config.rateMax, s.clock.now) && Rested(s.config, TeamOf(s, t), s.clock.now)
    ensures Histories(Assign(s, t, id).state)
    ensures CooldownKept(Assign(s, t, id).state.log, s.config.cooldown)
  {
    hide TeamHistory, HasRoom, CooldownKept;
    var r := Assign(s, t, id).state;
    var e := Granted(t, id, r.clock.now);
    var ts := TeamOf(s, t);
    assert TeamHistory(s.config, s.log, s.clock, ts, t);
    forall u
      ensures TeamHistory(r.config, r.log, r.clock, TeamOf(r, u), u)
    {
      assert TeamHistory(s.config, s.log, s.clock, TeamOf(s, u), u);
      if u == t {
        GrantedHistory(s.config, s.log, s.clock, r.clock, ts, TeamOf(r, t), t, id);
      } else {
        assert TeamOf(r, u) == TeamOf(s, u);
        OtherHistory(s.config, s.log, s.clock, r.clock, TeamOf(s, u), TeamOf(r, u), u, e);
      }
    }
    HistoryFreed(s.config, s.log, s.clock, ts, t);
    CooldownAppend(s.log, e, s.config.cooldown, ts.releasedAt);
  }

  lemma HistoryFreed(config: Config, log: seq<Entry>, clock: Clock, ts: Team, t: int)
    requires TeamHistory(config, log, clock, ts, t)
    ensures FreedBy(log, t, ts.releasedAt)
  {
  }

  lemma AssignReady(s: State, t: int, id: string)
    requires id in s.instances && t in s.flags
    ensures forall u :: u != t && Ready(s, u) ==> Ready(Assign(s, t, id).state, u)
  {
    hide HasRoom, Grants;
    var r := Assign(s, t, id).state;
    var e := Granted(t, id, r.clock.now);
    forall u | u != t && Ready(s, u)
      ensures Ready(r, u)
    {
      assert TeamOf(r, u) == TeamOf(s, u);
      RoomStays(s.log, e, u, s.config.rateMax, s.clock.now, r.clock.now);
    }
  }

  lemma TermElsewhere(config: Config, log: seq<Entry>, e: Entry, t: int, expires: Option<real>)
    requires TermKept(config, log, t, expires) && !(e.Granted? && e.team == t)
    ensures TermKept(config, log + [e], t, expires)
  {
    GrantsAppend(log, e, t);
  }

  lemma AssignTerms(s: State, t: int, id: string)
    requires Linked(s) && Terms(s) && id in s.instances && TeamOf(s, t).instance.None? && t in s.flags
    ensures Terms(Assign(s, t, id).state)
  {
    hide TermKept, Grants;
    var r := Assign(s, t, id).state;
    var e := Granted(t, id, r.clock.now);
    forall i | i in r.instances && r.instances[i].team.Some?
      ensures TermKept(r.config, r.log, r.instances[i].team.value, r.instances[i].expires)
    {
      if i == id {
        TermStarts(s.config, s.log, t, id, r.clock.now);
      } else {
        TermElsewhere(s.config, s.log, e, s.instances[i].team.value, s.instances[i].expires);
      }
    }
  }

  lemma TermStarts(config: Config, log: seq<Entry>, t: int, id: string, now: real)
    ensures TermKept(config, log + [Granted(t, id, now)], t, Some(now + config.leaseSeconds as real))
  {
    GrantsAppend(log, Granted(t, id, now), t);
  }

  lemma ReclaimTerms(s: State, t: int)
    requires Terms(s)
    ensures Terms(Reclaim(s, t))
  {
    hide TermKept, Grants;
    var r := Reclaim(s, t);
    var held := TeamOf(s, t).instance;
    if held.Some? && held.value in s.instances {
      var e := Freed(t, held.value, r.clock.now);
      forall i | i in r.instances && r.instances[i].team.Some?
        ensures TermKept(r.config, r.log, r.instances[i].team.value, r.instances[i].expires)
      {
        TermElsewhere(s.config, s.log, e, s.instances[i].team.value, s.instances[i].expires);
      }
    }
  }

  // Ending a lease and sending the instance to reboot.

  lemma ReclaimKeeps(s: State, t: int)
    requires Inv(s)
    ensures Inv(Reclaim(s, t)) && Reclaim(s, t).queue == s.queue
    ensures forall u :: u != t && Ready(s, u) ==> Ready(Reclaim(s, t), u)
  {
    hide TeamHistory, HasRoom, Grants, CooldownKept;
    var held := TeamOf(s, t).instance;
    if held.Some? {
      ReclaimLinks(s, t);
      ReclaimTerms(s, t);
      ReclaimHistories(s, t);
      ReclaimReady(s, t);
    }
  }

  lemma ReclaimLinks(s: State, t: int)
    requires Linked(s) && TeamOf(s, t).instance.Some?
    ensures Linked(Reclaim(s, t))
  {
    var r := Reclaim(s, t);
    var id := TeamOf(s, t).instance.value;
    assert forall u :: u != t ==> TeamOf(r, u) == TeamOf(s, u);
    assert forall i :: i != id && i in s.instances ==> r.instances[i] == s.instances[i];
  }

  lemma ReclaimHistories(s: State, t: int)
    requires Histories(s) && CooldownKept(s.log, s.config.cooldown)
    requires TeamOf(s, t).instance.Some? && TeamOf(s, t).instance.value in s.instances
    ensures Histories(Reclaim(s, t)) && CooldownKept(Reclaim(s, t).log, s.config.cooldown)
  {
    hide TeamHistory, CooldownKept;
    var r := Reclaim(s, t);
    var e := Freed(t, TeamOf(s, t).instance.value, r.clock.now);
    forall u
      ensures TeamHistory(r.config, r.log, r.clock, TeamOf(r, u), u)
    {
      assert TeamHistory(s.config, s.log, s.clock, TeamOf(s, u), u);
      assert u != t ==> TeamOf(r, u) == TeamOf(s, u);
      OtherHistory(s.config, s.log, s.clock, r.clock, TeamOf(s, u), TeamOf(r, u), u, e);
    }
    HistoryFreed(s.config, s.log, s.clock, TeamOf(s, t), t);
    CooldownAppend(s.log, e, s.config.cooldown, TeamOf(s, t).releasedAt);
  }

  lemma ReclaimReady(s: State, t: int)
    requires TeamOf(s, t).instance.Some? && TeamOf(s, t).instance.value in s.instances
    ensures forall u :: u != t && Ready(s, u) ==> Ready(Reclaim(s, t), u)
  {
    hide HasRoom, Grants;
    var r := Reclaim(s, t);
    var e := Freed(t, TeamOf(s, t).instance.value, r.clock.now);
    forall u | u != t && Ready(s, u)
      ensures Ready(r, u)
    {
      assert TeamOf(r, u) == TeamOf(s, u);
      RoomStays(s.log, e, u, s.config.rateMax, s.clock.now, r.clock.now);
    }
  }
}
