/**
 The victim-lease scheduler of whisper/deploy/judge/pool.py as a state machine.
 Every operation runs under one lock, so one operation is one atomic step. The
 wall clock is an input: a reading is the next value the environment supplies,
 and never goes backwards. Teams the scheduler has not met yet look like a
 fresh record, exactly what a lookup would create.
 */
module PoolModel {
  import opened Options

  datatype Lifecycle = Booting | Idle | Leased
  datatype Instance = Instance(team: Option<int>, expires: Option<real>, phase: Lifecycle)
  datatype Team = Team(instance: Option<string>, leaseExpires: Option<real>, releasedAt: Option<real>,
                       acquisitions: seq<real>)
  const NEWCOMER := Team(None, None, None, [])

  datatype Settings = Settings(leaseSeconds: int, rateMax: int, cooldown: int)
  type Config = c: Settings | c.rateMax >= 1 witness Settings(900, 5, 60)

  const WINDOW: real := 3600.0

  /** The last reading and the readings still to come. */
  datatype Clock = Clock(now: real, ahead: seq<real>)

  /** The history of a run: who got which instance, who gave it back, and when. */
  datatype Entry =
    | Granted(team: int, id: string, at: real)
    | Freed(team: int, id: string, at: real)

  datatype State = State(
    config: Config,
    order: seq<string>,
    instances: map<string, Instance>,
    teams: map<int, Team>,
    queue: seq<int>,
    flags: set<int>,
    clock: Clock,
    log: seq<Entry>)

  /** A step that may end in an exception; the state changes made before it stay. */
  datatype Stepped = Stepped(state: State, ok: bool)

  function Tick(c: Clock): (r: Clock)
    ensures r.now >= c.now
  {
    if c.ahead == [] then c
    else Clock(if c.ahead[0] > c.now then c.ahead[0] else c.now, c.ahead[1..])
  }

  function Read(s: State): State {
    s.(clock := Tick(s.clock))
  }

  /** int(x) truncates towards zero. */
  function Trunc(x: real): int {
    if x >= 0.0 then x.Floor else -((-x).Floor)
  }

  function TeamOf(s: State, t: int): Team {
    if t in s.teams then s.teams[t] else NEWCOMER
  }

  /** Testing the id for truth makes the empty id count as no id. */
  function CurrentLease(s: State, t: int): Option<string> {
    match TeamOf(s, t).instance
    case None => None
    case Some(id) =>
      if id != "" && id in s.instances && s.instances[id].team == Some(t) then Some(id) else None
  }

  predicate IsFree(instances: map<string, Instance>, id: string) {
    id in instances && instances[id].phase.Idle? && instances[id].team.None?
  }

  function FreeIn(order: seq<string>, instances: map<string, Instance>): (r: seq<string>)
    ensures forall id :: id in r ==> id in order && IsFree(instances, id)
    ensures forall id :: id in order && IsFree(instances, id) ==> id in r
    ensures (forall id :: id in order ==> !IsFree(instances, id)) ==> r == []
  {
    if order == [] then []
    else (if IsFree(instances, order[0]) then [order[0]] else []) + FreeIn(order[1..], instances)
  }

  function Free(s: State): seq<string> {
    FreeIn(s.order, s.instances)
  }

  /** Where t stands in the queue, counted from 1; 0 when it does not queue. */
  function Position(queue: seq<int>, t: int): (pos: nat)
    ensures pos == 0 <==> t !in queue
    ensures pos > 0 ==> pos <= |queue| && queue[pos - 1] == t && t !in queue[..pos - 1]
  {
    if queue == [] then 0
    else if queue[0] == t then 1
    else
      var rest := Position(queue[1..], t);
      assert rest > 0 ==> queue[..rest] == [queue[0]] + queue[1..][..rest - 1];
      if rest == 0 then 0 else rest + 1
  }

  function Prune(times: seq<real>, start: real): (r: seq<real>)
    ensures |r| <= |times|
  {
    if times == [] then []
    else (if times[0] > start then [times[0]] else []) + Prune(times[1..], start)
  }

  function WithTeam(s: State, t: int, ts: Team): State {
    s.(teams := s.teams[t := ts])
  }

  // ---------------------------------------------------------------------
  // The helpers that run under the lock
  // ---------------------------------------------------------------------

  /** What no operation under the lock changes. */
  predicate SameSetting(s: State, r: State) {
    r.config == s.config && r.order == s.order && r.flags == s.flags
  }

  function Assign(s: State, t: int, id: string): (r: Stepped)
    requires id in s.instances
    ensures r.state.queue == s.queue && SameSetting(s, r.state)
  {
    var r := Read(s);
    if t !in s.flags then Stepped(r, false)
    else
      var ts := TeamOf(s, t);
      var now := r.clock.now;
      var until := now + s.config.leaseSeconds as real;
      Stepped(r.(
        instances := s.instances[id := Instance(Some(t), Some(until), Leased)],
        teams := s.teams[t := Team(Some(id), Some(until), ts.releasedAt, ts.acquisitions + [now])],
        log := s.log + [Granted(t, id, now)]), true)
  }

  /** Ending a lease, and what both callers then do to the instance. */
  function Reclaim(s: State, t: int): State {
    match TeamOf(s, t).instance
    case None => s
    case Some(id) =>
      if id !in s.instances then s
      else
        var r := Read(s);
        var now := r.clock.now;
        r.(instances := s.instances[id := Instance(None, None, Booting)],
           teams := s.teams[t := Team(None, None, Some(now), TeamOf(s, t).acquisitions)],
           log := s.log + [Freed(t, id, now)])
  }

  /** The rate test prunes the team's times to the last hour as it goes. */
  function RateTested(s: State, t: int): State {
    var r := Read(s);
    var ts := TeamOf(s, t);
    WithTeam(r, t, ts.(acquisitions := Prune(ts.acquisitions, r.clock.now - WINDOW)))
  }

  /** None when the team may acquire, otherwise the seconds it is told to wait. */
  function RateVerdict(tested: State, t: int): Option<int> {
    var a := TeamOf(tested, t).acquisitions;
    if |a| >= tested.config.rateMax then Some(Trunc(a[0] + WINDOW - tested.clock.now) + 1) else None
  }

  function CoolTested(s: State, t: int): State {
    if TeamOf(s, t).releasedAt.None? then s else Read(s)
  }

  function CoolVerdict(tested: State, t: int): Option<int> {
    match TeamOf(tested, t).releasedAt
    case None => None
    case Some(at) =>
      var elapsed := tested.clock.now - at;
      if elapsed < tested.config.cooldown as real
      then Some(Trunc(tested.config.cooldown as real - elapsed) + 1) else None
  }

  /** Pop queued teams until one of them takes the instance. */
  function PromoteTo(s: State, id: string): (r: Stepped)
    requires id in s.instances
    ensures |r.state.queue| <= |s.queue|
    ensures s.queue != [] ==> |r.state.queue| < |s.queue|
    ensures SameSetting(s, r.state)
    decreases |s.queue|
  {
    if s.queue == [] then Stepped(s, true)
    else
      var t := s.queue[0];
      var popped := s.(queue := s.queue[1..]);
      if TeamOf(popped, t).instance.Some? then PromoteTo(popped, id)
      else
        var tested := CoolTested(popped, t);
        if CoolVerdict(tested, t).Some? then PromoteTo(tested, id) else Assign(tested, t, id)
  }

  function PromoteNext(s: State): (r: Stepped)
    ensures |r.state.queue| <= |s.queue|
    ensures Free(s) != [] && s.queue != [] ==> |r.state.queue| < |s.queue|
    ensures SameSetting(s, r.state)
  {
    var free := Free(s);
    if free == [] || s.queue == [] then Stepped(s, true)
    else
      assert free[0] in free;
      PromoteTo(s, free[0])
  }

  function PromoteAll(s: State): (r: Stepped)
    ensures SameSetting(s, r.state)
    decreases |s.queue|
  {
    if Free(s) == [] || s.queue == [] then Stepped(s, true)
    else
      var p := PromoteNext(s);
      if p.ok then PromoteAll(p.state) else p
  }

  predicate IsExpired(i: Instance, now: real) {
    i.phase.Leased? && i.team.Some? && i.expires.Some? && now >= i.expires.value
  }

  function ExpiredIn(order: seq<string>, instances: map<string, Instance>, now: real): seq<int> {
    if order == [] then []
    else
      (if order[0] in instances && IsExpired(instances[order[0]], now) then [instances[order[0]].team.value] else [])
      + ExpiredIn(order[1..], instances, now)
  }

  function ReclaimAll(s: State, teams: seq<int>): (r: State)
    ensures SameSetting(s, r) && r.queue == s.queue
    decreases |teams|
  {
    if teams == [] then s else ReclaimAll(Reclaim(s, teams[0]), teams[1..])
  }

  /** queue.remove: the first occurrence only. */
  function Without(queue: seq<int>, t: int): seq<int> {
    if queue == [] then []
    else if queue[0] == t then queue[1..]
    else [queue[0]] + Without(queue[1..], t)
  }

  // ---------------------------------------------------------------------
  // The operations
  // ---------------------------------------------------------------------

  datatype Reply =
    | Holding(id: string, expiresAt: int, secondsLeft: int)
    | Waiting(position: nat)
    | RateLimited(retryAfter: int)
    | Cooling(retryAfter: int)
    | NoFlag

  function HoldingReply(s: State, id: string): Reply
    requires id in s.instances
  {
    var until := match s.instances[id].expires case Some(e) => e case None => 0.0;
    var left := Trunc(until - Read(s).clock.now);
    Holding(id, Trunc(until), if left > 0 then left else 0)
  }

  function Lease(s: State, t: int): (State, Reply) {
    var held := CurrentLease(s, t);
    if held.Some? then (Read(s), HoldingReply(s, held.value))
    else if t in s.queue then (s, Waiting(Position(s.queue, t)))
    else
      var rated := RateTested(s, t);
      var limit := RateVerdict(rated, t);
      if limit.Some? then (rated, RateLimited(limit.value))
      else
        var cooled := CoolTested(rated, t);
        var wait := CoolVerdict(cooled, t);
        if wait.Some? then (cooled, Cooling(wait.value))
        else Admit(cooled, t)
  }

  /** The last part of a lease: the first free instance, or the end of the queue. */
  function Admit(s: State, t: int): (State, Reply) {
    var free := Free(s);
    if free == [] then (s.(queue := s.queue + [t]), Waiting(Position(s.queue + [t], t)))
    else
      assert free[0] in free;
      var a := Assign(s, t, free[0]);
      if !a.ok then (a.state, NoFlag)
      else (a.state, Holding(free[0], Trunc(a.state.instances[free[0]].expires.value), s.config.leaseSeconds))
  }

  function Release(s: State, t: int): State {
    if CurrentLease(s, t).None? then s.(queue := Without(s.queue, t)) else Reclaim(s, t)
  }

  /** now was read before the lock was taken, so it may be older than the clock. */
  function Reap(s: State, now: real): Stepped {
    PromoteAll(ReclaimAll(s, ExpiredIn(s.order, s.instances, now)))
  }

  function BootDone(s: State, id: string): Stepped {
    if id in s.instances && s.instances[id].phase.Booting?
    then PromoteNext(s.(instances := s.instances[id := s.instances[id].(phase := Idle)]))
    else Stepped(s, true)
  }

  /** Asking for the status of a team that neither holds nor queues runs both tests. */
  function Status(s: State, t: int): State {
    if CurrentLease(s, t).Some? then Read(s)
    else if t in s.queue then s
    else CoolTested(RateTested(s, t), t)
  }

  datatype Event =
    | PushFlag(team: int)
    | AskLease(team: int)
    | AskRelease(team: int)
    | AskStatus(team: int)
    | ReaperTick(now: real)
    | Booted(id: string)

  function Step(s: State, e: Event): State {
    match e
    case PushFlag(t) => s.(flags := s.flags + {t})
    case AskLease(t) => Lease(s, t).0
    case AskRelease(t) => Release(s, t)
    case AskStatus(t) => Status(s, t)
    case ReaperTick(now) => Reap(s, now).state
    case Booted(id) => BootDone(s, id).state
  }

  function Run(s: State, events: seq<Event>): State
    decreases |events|
  {
    if events == [] then s else Run(Step(s, events[0]), events[1..])
  }

  /** The configured ids without repetitions, each at the place where it first occurs. */
  function FirstOccurrences(ids: seq<string>): (order: seq<string>)
    ensures forall id :: id in order <==> id in ids
  {
    if ids == [] then []
    else
      var front, last := ids[..|ids| - 1], ids[|ids| - 1];
      assert ids == front + [last];
      FirstOccurrences(front) + if last in front then [] else [last]
  }

  function AllBooting(order: seq<string>): map<string, Instance> {
    map id | id in order :: Instance(None, None, Booting)
  }

  /** The pool when the service starts: everything boots, nobody is known. */
  function Initial(config: Config, order: seq<string>, clock: Clock): State {
    State(config, order, AllBooting(order), map[], [], {}, clock, [])
  }
}
