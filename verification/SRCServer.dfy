/** The server: connection requests, heartbeats, service requests and the tick of the heartbeat thread. */
module Servers {
  import opened IndexedHeaps
  import opened HeapTimers
  import opened Logs
  import opened NamespaceSpec
  import opened Protocol
  import opened ProtocolTheorems
  import opened SessionManagers
  import opened Arenas
  import opened ServiceTree
  import ServerHistory
  import Paths

  /** Calling back into a heap the fired ids were popped from ends where calling back into the full one would. */
  lemma RearmedWithout(m: map<SessionId, int>, fired: seq<SessionId>, rearm: seq<int>, t: int)
    requires |fired| == |rearm| && Distinct(fired) && forall k :: 0 <= k < |fired| ==> fired[k] in m
    ensures Rearmed(Without(m, fired), fired, rearm, t) == Rearmed(m, fired, rearm, t)
  {
    var r, r' := Rearmed(m, fired, rearm, t), Rearmed(Without(m, fired), fired, rearm, t);
    RearmedAt(m, fired, rearm, t);
    RearmedAt(Without(m, fired), fired, rearm, t);
    forall id | id in r
      ensures id in r' && r'[id] == r[id]
    {
      if id in fired {
        var k :| 0 <= k < |fired| && fired[k] == id;
      }
    }
  }

  /** One timeout callback, at reading now. */
  function TimedOut(s: State, id: SessionId, now: int, t: int): State
  {
    State(now, s.timers[id := now + t], if id in s.counts then s.counts[id := s.counts[id] + 1] else s.counts,
          s.sessions, s.tree)
  }

  lemma TimedOutNext(s: State, fired: seq<SessionId>, k: nat, rearm: seq<int>, t: int, clock: int, now: int)
    requires k < |fired| && |rearm| == k && Distinct(fired)
    ensures TimedOut(AllTimedOut(s, fired[..k], rearm, t, clock), fired[k], now, t)
         == AllTimedOut(s, fired[..k + 1], rearm + [now], t, now)
  {
    assert fired[..k + 1][..k] == fired[..k] && (rearm + [now])[..k] == rearm;
    assert fired[k] !in fired[..k];
    assert forall id :: id in fired[..k + 1] <==> id in fired[..k] || id == fired[k];
  }

  lemma SweptNobody(s: State)
    ensures Swept(s, {}) == s
  {
  }

  lemma SweptNext(s: State, dead: set<SessionId>, id: SessionId)
    ensures Swept(Swept(s, dead), {id}) == Swept(s, dead + {id})
  {
    RemoveOwnedInSteps(s.tree, dead, id);
    assert s.timers - dead - {id} == s.timers - (dead + {id});
    assert s.counts - dead - {id} == s.counts - (dead + {id});
    assert s.sessions - dead - {id} == s.sessions - (dead + {id});
  }

  /** A front that has reached the limit is due; one that has not leaves nobody due. */
  lemma FrontDecides(h: seq<Entry>, pos: map<Id, nat>, counts: map<Id, int>, dead: set<Id>, limit: int)
    requires Indexed(h, pos) && Ordered(LargestFirst, h)
    requires KeyMap(h, pos) == counts - dead && dead <= Reached(counts, limit)
    ensures h != [] && h[0].key >= limit ==> dead + {h[0].id} <= Reached(counts, limit)
    ensures h == [] || h[0].key < limit ==> dead == Reached(counts, limit)
  {
    if h != [] {
      FrontLeadsMap(LargestFirst, h, pos);
    } else {
      assert KeyMap(h, pos) == map[];
    }
    forall id | id in Reached(counts, limit) && id !in dead
      ensures id in KeyMap(h, pos)
    {
      assert id in counts - dead;
    }
  }

  lemma AppendReading(lo: int, r: seq<int>, hi: int, now: int)
    requires NonDecreasing(r) && Within(lo, r, hi) && lo <= hi <= now
    ensures NonDecreasing(r + [now]) && Within(lo, r + [now], now)
  {
  }

  /** A tick that began at some later reading of the clock, from its two halves. */
  lemma TickOfHalves(p: Params, s: State, begun: State, e: Event, s': State)
    requires e.Tick? && s.clock <= e.start && begun == s.(clock := e.start) && Legal(begun, e)
    requires var t := AllTimedOut(begun, e.fired, e.rearm, p.T(), e.finish); s' == Swept(t, Reached(t.counts, p.limit))
    ensures Legal(s, e) && s' == Apply(p, s, e)
  {
  }

  class SRCServer {
    const timeoutMs: int
    const limit: int
    const timer: IndexedHeap
    const counter: IndexedHeap
    const manager: SessionManager
    const services: Services
    const clock: Clock
    ghost const boot: int
    ghost var log: Log

    ghost predicate Parts()
      reads timer, counter, services
    {
      && timer != counter && timer.order.SmallestFirst? && counter.order.LargestFirst?
      && timer.Valid() && counter.Valid() && services.Valid()
    }

    ghost function P(): Params
    {
      Params(timeoutMs, limit, boot)
    }

    ghost function Now(): State
      reads timer, counter, services, manager, clock
      requires Parts()
    {
      State(clock.t, timer.Contents(), counter.Contents(), manager.sessions.Keys, services.Tree())
    }

    /** The server is always in the state that the protocol reaches by its log. */
    ghost predicate Valid()
      reads this, timer, counter, services, manager, clock
    {
      Parts() && Run(P(), log) && Now() == After(P(), log)
    }

    constructor (timeoutMs: int, maxHeartbeat: int, start: int)
      ensures Valid() && log == [] && P() == Params(timeoutMs, maxHeartbeat, start)
      ensures fresh({timer, counter, manager, services, clock})
    {
      this.timeoutMs, limit, boot, log := timeoutMs, maxHeartbeat, start, [];
      timer := new IndexedHeap(SmallestFirst);
      counter := new IndexedHeap(LargestFirst);
      manager := new SessionManager();
      services := new Services();
      clock := new Clock(start);
    }

    /** A connection request: onMessage, then HeartbeatCounter::push. */
    method Connect(id: SessionId, peer: Address)
      requires Valid()
      modifies this, timer, counter, manager, clock
      ensures Valid() && log == old(log) + [Event.Connect(id, clock.t)]
    {
      var now := Admit(id, peer);
      Extend(Event.Connect(id, now));
    }

    method Admit(id: SessionId, peer: Address) returns (now: int)
      requires Parts()
      modifies timer, counter, manager, clock
      ensures Parts() && old(clock.t) <= now == clock.t && Now() == Enrolled(old(Now()), id, now, timeoutMs * MS)
    {
      ghost var s := Now();
      now := Enroll(id, peer);
      assert Now() == Enrolled(s, id, now, timeoutMs * MS);
    }

    /** The two halves of a connection request, table by table. */
    method Enroll(id: SessionId, peer: Address) returns (now: int)
      requires Parts()
      modifies timer, counter, manager, clock
      ensures Parts() && old(clock.t) <= now == clock.t
      ensures timer.Contents() == old(timer.Contents())[id := now + timeoutMs * MS]
      ensures counter.Contents() == old(counter.Contents())[id := 0]
      ensures manager.sessions.Keys == old(manager.sessions.Keys) + {id}
      ensures services.Tree() == old(services.Tree())
    {
      manager.Add(id, peer);
      now := StartCounting(id);
    }

    /** HeartbeatCounter::push */
    method StartCounting(id: SessionId) returns (now: int)
      requires Parts()
      modifies timer, counter, clock
      ensures Parts() && old(clock.t) <= now == clock.t
      ensures timer.Contents() == old(timer.Contents())[id := now + timeoutMs * MS]
      ensures counter.Contents() == old(counter.Contents())[id := 0]
    {
      now := clock.Now();
      timer.Push(id, now + timeoutMs * MS);
      counter.Push(id, 0);
    }

    /** onUDPMessage, then HeartbeatCounter::reset for a registered session. */
    method OnUDPMessage(id: SessionId)
      requires Valid()
      modifies this, timer, counter, clock
      ensures Valid() && log == old(log) + [Heartbeat(id, clock.t)]
    {
      Beat(id);
      Extend(Heartbeat(id, clock.t));
    }

    method Beat(id: SessionId)
      requires Parts()
      modifies timer, counter, clock
      ensures Parts() && old(clock.t) <= clock.t && Now() == Heard(old(Now()), id, clock.t, timeoutMs * MS)
    {
      var known := manager.Exist(id);
      if known {
        ResetSession(id);
      }
    }

    method ResetSession(id: SessionId)
      requires Parts()
      modifies timer, counter, clock
      ensures Parts() && old(clock.t) <= clock.t
      ensures Now() == old(Now()).(clock := clock.t,
                                   timers := Reset(old(Now()).timers, id, clock.t + timeoutMs * MS),
                                   counts := Reset(old(Now()).counts, id, 0))
    {
      counter.Adjust(id, 0);
      var now := clock.Now();
      timer.Adjust(id, now + timeoutMs * MS);
    }

    /** A create request; set and delete requests go the same way. */
    method CreateNode(id: SessionId, path: string, data: string, kind: int) returns (ok: bool)
      requires Valid()
      modifies this, services
      ensures Valid() && log == old(log) + [Event.CreateNode(id, path, data, kind)]
      ensures ok == CreateOk(old(services.Tree()), Paths.Split(path))
    {
      ok := services.CreateNode(id, path, data, kind);
      Extend(Event.CreateNode(id, path, data, kind));
    }

    method SetNode(path: string, data: string) returns (ok: bool)
      requires Valid()
      modifies this, services
      ensures Valid() && log == old(log) + [Event.SetNode(path, data)]
      ensures ok == SetOk(old(services.Tree()), Paths.Split(path))
    {
      ok := services.SetNode(path, data);
      Extend(Event.SetNode(path, data));
    }

    method DeleteNode(path: string) returns (ok: bool)
      requires Valid()
      modifies this, services
      ensures Valid() && log == old(log) + [Event.DeleteNode(path)]
      ensures ok == DeleteOk(old(services.Tree()), Paths.Split(path))
    {
      ok := services.DeleteNode(path);
      Extend(Event.DeleteNode(path));
    }

    /** One round of ThreadFunc before it receives: HeartbeatCounter::tick. */
    method Tick()
      requires Valid()
      modifies this, timer, counter, manager, services, clock
      ensures Valid()
      ensures |log| == |old(log)| + 1 && Earlier(log) == old(log) && Latest(log).Tick?
      ensures old(clock.t) <= Latest(log).start && Latest(log).finish == clock.t
    {
      ghost var e := BothTicks();
      Extend(e);
    }

    /** The timer's tick, then the counter's. */
    method BothTicks() returns (ghost e: Event)
      requires Parts()
      modifies timer, counter, manager, services, clock
      ensures Parts() && e.Tick? && old(clock.t) <= e.start && e.finish == clock.t
      ensures Legal(old(Now()), e) && Now() == Apply(P(), old(Now()), e)
    {
      var start := clock.Now();    // when the tick begins; only the log uses it
      ghost var begun := Now();
      var fired;
      ghost var readings, rearm;
      fired, readings, rearm := TimerTick();
      CounterTick();
      e := Event.Tick(start, fired, readings, rearm, clock.t);
      TickOfHalves(P(), old(Now()), begun, e, Now());
    }

    /** HeapTimer::tick: the expiry loop, then the callbacks of what it collected. */
    method TimerTick() returns (fired: seq<SessionId>, ghost readings: seq<int>, ghost rearm: seq<int>)
      requires Parts()
      modifies timer, counter, clock
      ensures Parts() && old(clock.t) <= clock.t
      ensures Legal(old(Now()), Event.Tick(old(clock.t), fired, readings, rearm, clock.t))
      ensures Now() == AllTimedOut(old(Now()), fired, rearm, timeoutMs * MS, clock.t)
    {
      ghost var timers := timer.Contents();
      fired, readings := CollectExpired(timer, clock);
      rearm := RunTimeouts(fired);
      RearmedWithout(timers, fired, rearm, timeoutMs * MS);
    }

    /** HeapTimer::getNextTick: a tick of the timer heap, then the time to the earliest deadline. */
    method GetNextTick() returns (res: int, fired: seq<SessionId>, ghost readings: seq<int>, ghost rearm: seq<int>)
      requires Parts()
      modifies timer, counter, clock
      ensures Parts() && |fired| == |rearm|
      ensures var m := timer.Contents();
              && m == Rearmed(old(timer.Contents()), fired, rearm, timeoutMs * MS)
              && Collected(old(timer.Contents()), fired, readings)
              && (res == -1 <==> m == map[]) && res >= -1
              && (res == 0 <==> exists id :: id in m && Expired(m[id], clock.t))
              && (res > 0 ==> forall id :: id in m ==> m[id] - clock.t >= res * MS)
              && (res > 0 ==> exists id :: id in m && m[id] - clock.t < (res + 1) * MS)
    {
      fired, readings, rearm := TimerTick();
      res := NextTick(timer, clock);
    }

    /** Appends to the log the event that led from the logged state to the present one. */
    ghost method Extend(e: Event)
      requires Parts() && Run(P(), log) && Legal(After(P(), log), e) && Now() == Apply(P(), After(P(), log), e)
      modifies this`log
      ensures Valid() && log == old(log) + [e]
    {
      RunStep(P(), log, e);
      log := log + [e];
    }

    /** Second half of HeapTimer::tick: timeoutFunc for every fired timer. */
    method RunTimeouts(fired: seq<SessionId>) returns (ghost rearm: seq<int>)
      requires Parts() && Distinct(fired)
      modifies timer, counter, clock
      ensures Parts() && clock.t >= old(clock.t)
      ensures |rearm| == |fired| && NonDecreasing(rearm) && Within(old(clock.t), rearm, clock.t)
      ensures Now() == AllTimedOut(old(Now()), fired, rearm, timeoutMs * MS, clock.t)
    {
      rearm := [];
      for k := 0 to |fired|
        invariant Parts() && clock.t >= old(clock.t)
        invariant |rearm| == k && NonDecreasing(rearm) && Within(old(clock.t), rearm, clock.t)
        invariant Now() == AllTimedOut(old(Now()), fired[..k], rearm, timeoutMs * MS, clock.t)
      {
        ghost var hi := clock.t;
        var now := TimeoutFunc(fired[k]);
        TimedOutNext(old(Now()), fired, k, rearm, timeoutMs * MS, hi, now);
        AppendReading(old(clock.t), rearm, hi, now);
        rearm := rearm + [now];
      }
      assert fired[..|fired|] == fired;
    }

    /** timeoutFunc: the timer starts anew, and the session has missed one more heartbeat. */
    method TimeoutFunc(id: SessionId) returns (now: int)
      requires Parts()
      modifies timer, counter, clock
      ensures Parts() && now == clock.t >= old(clock.t)
      ensures Now() == TimedOut(old(Now()), id, now, timeoutMs * MS)
    {
      now := clock.Now();
      timer.Push(id, now + timeoutMs * MS);
      counter.AddOne(id);
    }

    /** HeapHeartBeatCounter::tick: ends sessions as long as the front of the counter heap has reached the limit. */
    method CounterTick()
      requires Parts()
      modifies timer, counter, manager, services
      ensures Parts()
      ensures Now() == Swept(old(Now()), Reached(old(Now()).counts, limit))
    {
      ghost var dead: set<SessionId> := {};
      SweptNobody(Now());
      while |counter.heap| > 0
        invariant Parts()
        invariant Now() == Swept(old(Now()), dead) && dead <= Reached(old(Now()).counts, limit)
        decreases |counter.heap|
      {
        FrontDecides(counter.heap, counter.pos, old(Now()).counts, dead, limit);
        if counter.heap[0].key < limit {
          break;
        }
        SweptNext(old(Now()), dead, counter.heap[0].id);
        dead := dead + {counter.heap[0].id};
        EndFront();
      }
      FrontDecides(counter.heap, counter.pos, old(Now()).counts, dead, limit);
    }

    /** The callback for the front, then pop: the callback leaves the counter heap alone, so the same entry goes. */
    method EndFront()
      requires Parts() && |counter.heap| > 0
      modifies timer, counter, manager, services
      ensures Parts() && |counter.heap| < old(|counter.heap|)
      ensures Now() == Swept(old(Now()), {old(counter.heap[0].id)})
    {
      HeartbeatReach(counter.heap[0].id);
      counter.Pop();
    }

    /** heartbeatReach, then onHeartbeatReachLimit. */
    method HeartbeatReach(id: SessionId)
      requires Parts()
      modifies timer, manager, services
      ensures Parts()
      ensures timer.Contents() == old(timer.Contents()) - {id}
      ensures manager.sessions == old(manager.sessions) - {id}
      ensures services.Tree() == RemoveOwned(old(services.Tree()), {id})
    {
      timer.Del(id);
      manager.Remove(id);
      services.RemoveEphemeral(id);
    }
  }

  /**
   End to end, on the server's own data: a session silent for longer than limit longest periods is in
   neither heap nor in the session table; and no node it owns, nor one below, is still allocated,
   unless one was made since it was registered.
   */
  lemma SilentSessionLeavesServer(server: SRCServer, id: SessionId, g: int)
    requires server.Valid()
    requires Paced(server.P(), server.log, g)
    requires server.clock.t > LastBeat(server.P(), server.log, id) + server.P().Most(g)
    ensures id !in server.timer.pos && id !in server.counter.pos && id !in server.manager.sessions
    ensures Unorphaned(server.P(), server.log, id) ==>
              DoomedRefs(server.services.arena, server.services.at, DUMMY, id) == {}
  {
    var s := server.Now();
    SilentSessionIsGone(server.P(), server.log, id, g, LastBeat(server.P(), server.log, id));
    assert server.timer.Contents().Keys == server.timer.pos.Keys;
    assert server.counter.Contents().Keys == server.counter.pos.Keys;
    var a, at := server.services.arena, server.services.at;
    forall r, x | r in a && DoomedBy(a, at, DUMMY, id, x, r)
      ensures Doomed(s.tree, at[r], {id}) && at[r] in s.tree
    {
      ViewAt(a, at, x);
      ViewAt(a, at, r);
      assert OwnedAt(s.tree, at[x], {id});
    }
  }

  /** The server's own data is what its log tells: session table, both heaps and the tree, at every id and every place. */
  lemma ServerIsTold(server: SRCServer)
    requires server.Valid()
    ensures var p, log := server.P(), server.log;
            && (forall id :: id in server.manager.sessions <==> ServerHistory.Registered(p, log, id))
            && (forall id :: id in server.timer.pos <==> ServerHistory.Registered(p, log, id))
            && (forall id :: id in server.counter.pos <==> ServerHistory.Registered(p, log, id))
            && (forall id :: id in server.timer.pos ==>
                  server.timer.Contents()[id] == ServerHistory.LastArmed(p, log, id) + p.T())
            && (forall id :: id in server.counter.pos ==> server.counter.Contents()[id] == Misses(log, id))
            && (forall q :: ServerHistory.At(server.services.Tree(), q) == ServerHistory.Stored(p, log, q))
  {
    ServerHistory.StateIs(server.P(), server.log);
    assert server.timer.Contents().Keys == server.timer.pos.Keys;
    assert server.counter.Contents().Keys == server.counter.pos.Keys;
  }
}
