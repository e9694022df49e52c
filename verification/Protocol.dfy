/**
 The session protocol on values: connects, heartbeats, service requests and ticks as events of
 a log. Times are whole nanoseconds, as high_resolution_clock counts them.
 */
module Protocol {
  import opened Logs
  import opened NamespaceSpec
  import Paths

  const MS := 1_000_000

  /** timeoutMs: milliseconds allowed for one heartbeat; limit: missed heartbeats that end a session. */
  datatype Params = Params(timeoutMs: int, limit: int, boot: int) {
    function T(): int {
      timeoutMs * MS
    }

    /** The least time one missed heartbeat can take: the expiry test gives away up to MS − 1. */
    function Shortest(): int {
      if timeoutMs >= 1 then T() - MS + 1 else 0
    }

    /** What a timer that outlives a tick had left at least, against the time it was set for. */
    function Lead(): int {
      if timeoutMs >= 1 then MS else T()
    }

    /** The most time one missed heartbeat can take with ticks at most g apart. */
    function Longest(g: int): int {
      T() + g - Lead()
    }

    /** The least time a session can be silent before it is ended. */
    function Least(): int {
      if limit >= 1 then limit * Shortest() else 0
    }

    /** The most time a session can be silent and still be registered, with ticks at most g apart. */
    function Most(g: int): int {
      if limit >= 1 then limit * Longest(g) else g
    }
  }

  /** duration_cast to milliseconds: truncates toward zero. */
  function TruncMs(d: int): int
  {
    if d >= 0 then d / MS else -(-d / MS)
  }

  predicate Expired(deadline: int, now: int)
  {
    !(TruncMs(deadline - now) > 0)
  }

  /** The truncation lets a timer fire up to one millisecond early, and no earlier. */
  lemma ExpiredIff(deadline: int, now: int)
    ensures Expired(deadline, now) <==> deadline - now < MS
  {
  }

  datatype State = State(
    clock: int,                        // the latest clock reading
    timers: map<SessionId, int>,       // deadlines
    counts: map<SessionId, int>,       // missed heartbeats
    sessions: set<SessionId>,
    tree: View)

  datatype Event =
    | Connect(id: SessionId, now: int)
    | Heartbeat(id: SessionId, now: int)
      // One tick: the sessions whose timer fired, in order; the clock readings of the expiry
      // tests; the readings at which the fired timers were set anew.
    | Tick(start: int, fired: seq<SessionId>, readings: seq<int>, rearm: seq<int>, finish: int)
    | CreateNode(id: SessionId, path: string, data: string, kind: int)
    | SetNode(path: string, data: string)
    | DeleteNode(path: string)

  type Log = seq<Event>

  function Init(p: Params): State
  {
    State(p.boot, map[], map[], {}, INITIAL)
  }

  /** The timers after the callbacks of the fired ones: each one set anew at its own reading. */
  function Rearmed(m: map<SessionId, int>, fired: seq<SessionId>, rearm: seq<int>, t: int): map<SessionId, int>
    requires |fired| == |rearm|
  {
    if fired == [] then m
    else
      var n := |fired| - 1;
      Rearmed(m, fired[..n], rearm[..n], t)[fired[n] := rearm[n] + t]
  }

  function Bumped(counts: map<SessionId, int>, fired: seq<SessionId>): map<SessionId, int>
  {
    map id | id in counts :: if id in fired then counts[id] + 1 else counts[id]
  }

  function Reached(counts: map<SessionId, int>, limit: int): set<SessionId>
  {
    set id | id in counts && counts[id] >= limit
  }

  function Died(p: Params, s: State, e: Event): set<SessionId>
    requires e.Tick?
  {
    Reached(Bumped(s.counts, e.fired), p.limit)
  }

  function Reset(m: map<SessionId, int>, id: SessionId, key: int): map<SessionId, int>
  {
    if id in m then m[id := key] else m
  }

  function Enrolled(s: State, id: SessionId, now: int, t: int): State
  {
    State(now, s.timers[id := now + t], s.counts[id := 0], s.sessions + {id}, s.tree)
  }

  /** An unregistered session's heartbeat is ignored. */
  function Heard(s: State, id: SessionId, now: int, t: int): State
  {
    if id in s.sessions
    then State(now, Reset(s.timers, id, now + t), Reset(s.counts, id, 0), s.sessions, s.tree)
    else s.(clock := now)
  }

  /** All timeout callbacks of a tick. */
  function AllTimedOut(s: State, fired: seq<SessionId>, rearm: seq<int>, t: int, clock: int): State
    requires |fired| == |rearm|
  {
    State(clock, Rearmed(s.timers, fired, rearm, t), Bumped(s.counts, fired), s.sessions, s.tree)
  }

  /** What is left when the sessions of dead are taken out everywhere. */
  ghost function Swept(s: State, dead: set<SessionId>): State
  {
    State(s.clock, s.timers - dead, s.counts - dead, s.sessions - dead, RemoveOwned(s.tree, dead))
  }

  ghost function Apply(p: Params, s: State, e: Event): State
    requires e.Tick? ==> |e.fired| == |e.rearm|
  {
    match e
    case Connect(id, now) => Enrolled(s, id, now, p.T())
    case Heartbeat(id, now) => Heard(s, id, now, p.T())
    case Tick(_, fired, _, rearm, finish) =>
      Swept(AllTimedOut(s, fired, rearm, p.T(), finish), Died(p, s, e))
    case CreateNode(id, path, data, kind) => s.(tree := Create(s.tree, id, path, data, kind))
    case SetNode(path, data) => s.(tree := Set(s.tree, path, data))
    case DeleteNode(path) => s.(tree := Delete(s.tree, path))
  }

  ghost predicate NonDecreasing(r: seq<int>)
  {
    forall i, j :: 0 <= i <= j < |r| ==> r[i] <= r[j]
  }

  ghost predicate Within(lo: int, r: seq<int>, hi: int)
  {
    forall i :: 0 <= i < |r| ==> lo <= r[i] <= hi
  }

  ghost predicate Distinct(ids: seq<SessionId>)
  {
    forall i, j :: 0 <= i < j < |ids| ==> ids[i] != ids[j]
  }

  /** Fired timers and the readings of their expiry tests: each timer once, each expired, earliest deadline first. */
  ghost predicate Picked(m: map<SessionId, int>, fired: seq<SessionId>, readings: seq<int>)
  {
    && |fired| <= |readings|
    && NonDecreasing(readings)
    && Distinct(fired)
    && (forall k :: 0 <= k < |fired| ==> fired[k] in m && Expired(m[fired[k]], readings[k]))
    && (forall i, j :: 0 <= i <= j < |fired| ==> m[fired[i]] <= m[fired[j]])
  }

  /** What the expiry loop of a tick may take from the deadlines m; whatever it leaves was unexpired at the last reading. */
  ghost predicate Collected(m: map<SessionId, int>, fired: seq<SessionId>, readings: seq<int>)
  {
    && Picked(m, fired, readings) && |readings| <= |fired| + 1
    && (forall id :: id in m && id !in fired ==> |readings| == |fired| + 1 && !Expired(m[id], readings[|fired|]))
  }

  ghost predicate Legal(s: State, e: Event)
  {
    match e
    case Connect(_, now) => s.clock <= now
    case Heartbeat(_, now) => s.clock <= now
    case Tick(start, fired, readings, rearm, finish) =>
      && s.clock <= start <= finish
      && |fired| == |rearm|
      && Collected(s.timers, fired, readings)
      && NonDecreasing(rearm)
      && Within(start, readings, finish) && Within(start, rearm, finish)
      && (forall i, j :: 0 <= i < |readings| && 0 <= j < |rearm| ==> readings[i] <= rearm[j])
    case _ => true
  }

  ghost predicate Run(p: Params, log: Log)
    decreases |log|, 0
  {
    log == [] || (Run(p, Earlier(log)) && Legal(After(p, Earlier(log)), Latest(log)))
  }

  ghost function After(p: Params, log: Log): State
    requires Run(p, log)
    decreases |log|, 1
  {
    if log == [] then Init(p) else Apply(p, After(p, Earlier(log)), Latest(log))
  }

  lemma RunStep(p: Params, log: Log, e: Event)
    requires Run(p, log) && Legal(After(p, log), e)
    ensures Run(p, log + [e]) && After(p, log + [e]) == Apply(p, After(p, log), e)
  {
  }

  // Quantities read off the log alone, to compare the state with.

  /** A connect or heartbeat of the session. */
  predicate IsBeat(e: Event, id: SessionId)
  {
    (e.Connect? || e.Heartbeat?) && e.id == id
  }

  /** The latest connect or heartbeat of id; the boot time when there is none. */
  function LastBeat(p: Params, log: Log, id: SessionId): int
    decreases |log|
  {
    if log == [] then p.boot
    else if IsBeat(Latest(log), id) then Latest(log).now
    else LastBeat(p, Earlier(log), id)
  }

  /** Timer expiries of id since its latest connect or heartbeat. */
  function Misses(log: Log, id: SessionId): nat
    decreases |log|
  {
    if log == [] || IsBeat(Latest(log), id) then 0
    else Misses(Earlier(log), id) + (if Latest(log).Tick? && id in Latest(log).fired then 1 else 0)
  }

  /** When the latest tick began. */
  function LastTick(p: Params, log: Log): int
    decreases |log|
  {
    if log == [] then p.boot else if Latest(log).Tick? then Latest(log).start else LastTick(p, Earlier(log))
  }

  /** Ticks at most g apart: whatever happens, happens at most g after the latest earlier tick began. */
  ghost predicate Paced(p: Params, log: Log, g: int)
    requires Run(p, log)
    decreases |log|
  {
    log == [] || (Paced(p, Earlier(log), g) && After(p, log).clock <= LastTick(p, Earlier(log)) + g)
  }

  /** A session node appears whose session is not registered: the server does not check this. */
  ghost predicate Orphans(s: State, e: Event)
  {
    e.CreateNode? && e.kind == EPHEMERAL && CreateOk(s.tree, Paths.Split(e.path)) && e.id !in s.sessions
  }

  /** Session id never gets a node while it is not registered. */
  ghost predicate OwnerRegistered(p: Params, log: Log, id: SessionId)
    requires Run(p, log)
    decreases |log|
  {
    log != [] ==>
    && OwnerRegistered(p, Earlier(log), id)
    && !(Orphans(After(p, Earlier(log)), Latest(log)) && Latest(log).id == id)
  }

  /** Session id has got no node since it was last registered, whatever happened before. */
  ghost predicate Unorphaned(p: Params, log: Log, id: SessionId)
    requires Run(p, log)
    decreases |log|
  {
    log == []
    || id in After(p, Earlier(log)).sessions
    || (Unorphaned(p, Earlier(log), id) && !(Orphans(After(p, Earlier(log)), Latest(log)) && Latest(log).id == id))
  }

  /** The environment's side: session nodes are created for registered sessions only. */
  ghost predicate OwnersRegistered(p: Params, log: Log)
    requires Run(p, log)
  {
    forall id :: OwnerRegistered(p, log, id)
  }
}
