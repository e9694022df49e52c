/** What holds in every run of the session protocol. */
module ProtocolTheorems {
  import opened Logs
  import opened NamespaceSpec
  import opened Protocol
  import Paths

  lemma {:induction false} RearmedRest(m: map<SessionId, int>, fired: seq<SessionId>, rearm: seq<int>, t: int)
    requires |fired| == |rearm|
    ensures forall id :: id in Rearmed(m, fired, rearm, t) <==> id in m || id in fired
    ensures forall id :: id in m && id !in fired ==> Rearmed(m, fired, rearm, t)[id] == m[id]
    decreases |fired|
  {
    if fired != [] {
      var n := |fired| - 1;
      RearmedRest(m, fired[..n], rearm[..n], t);
      assert fired == fired[..n] + [fired[n]];
    }
  }

  lemma {:induction false} RearmedOne(m: map<SessionId, int>, fired: seq<SessionId>, rearm: seq<int>, t: int, k: nat)
    requires k < |fired| == |rearm| && Distinct(fired)
    ensures fired[k] in Rearmed(m, fired, rearm, t) && Rearmed(m, fired, rearm, t)[fired[k]] == rearm[k] + t
    decreases |fired|
  {
    var n := |fired| - 1;
    if k < n {
      RearmedOne(m, fired[..n], rearm[..n], t, k);
    }
  }

  /** The timers after the callbacks: the fired ones run from their own readings, the others are untouched. */
  lemma RearmedAt(m: map<SessionId, int>, fired: seq<SessionId>, rearm: seq<int>, t: int)
    requires |fired| == |rearm| && Distinct(fired)
    ensures forall id :: id in Rearmed(m, fired, rearm, t) <==> id in m || id in fired
    ensures forall k :: 0 <= k < |fired| ==> Rearmed(m, fired, rearm, t)[fired[k]] == rearm[k] + t
    ensures forall id :: id in m && id !in fired ==> Rearmed(m, fired, rearm, t)[id] == m[id]
  {
    RearmedRest(m, fired, rearm, t);
    forall k | 0 <= k < |fired|
      ensures Rearmed(m, fired, rearm, t)[fired[k]] == rearm[k] + t
    {
      RearmedOne(m, fired, rearm, t, k);
    }
  }

  // ---- The three tables agree; counts are exact ----

  ghost predicate Aligned(s: State)
  {
    s.timers.Keys == s.counts.Keys == s.sessions
  }

  lemma StepKeepsAligned(p: Params, s: State, e: Event)
    requires Aligned(s) && Legal(s, e)
    ensures Aligned(Apply(p, s, e))
  {
    if e.Tick? {
      RearmedAt(s.timers, e.fired, e.rearm, p.T());
      assert Rearmed(s.timers, e.fired, e.rearm, p.T()).Keys == s.timers.Keys;
    }
  }

  /** In every run the timer heap, the counter heap and the session table hold the same ids. */
  lemma {:induction false} TablesAgree(p: Params, log: Log)
    requires Run(p, log)
    ensures Aligned(After(p, log))
    decreases |log|
  {
    if log != [] {
      TablesAgree(p, Earlier(log));
      StepKeepsAligned(p, After(p, Earlier(log)), Latest(log));
    }
  }

  /** One event: a beat sets the count to zero, a firing adds one, anything else leaves it. */
  lemma CountStep(p: Params, s: State, e: Event, id: SessionId)
    requires Aligned(s) && Legal(s, e) && id in Apply(p, s, e).counts
    ensures IsBeat(e, id) ==> Apply(p, s, e).counts[id] == 0
    ensures !IsBeat(e, id) ==>
              && id in s.counts
              && Apply(p, s, e).counts[id] == s.counts[id] + (if e.Tick? && id in e.fired then 1 else 0)
    ensures !IsBeat(e, id) && e.Tick? ==> Apply(p, s, e).counts[id] < p.limit
  {
  }

  /** Every stored count is the number of timer expiries since the latest connect or heartbeat. */
  lemma {:induction false} CountsAreExact(p: Params, log: Log, id: SessionId)
    requires Run(p, log) && id in After(p, log).counts
    ensures After(p, log).counts[id] == Misses(log, id)
    ensures p.limit >= 1 ==> Misses(log, id) < p.limit
    decreases |log|
  {
    if log != [] {
      TablesAgree(p, Earlier(log));
      CountStep(p, After(p, Earlier(log)), Latest(log), id);
      if !IsBeat(Latest(log), id) {
        CountsAreExact(p, Earlier(log), id);
      }
    }
  }

  /** A tick ends exactly the sessions whose misses, this tick's included, have reached the limit. */
  lemma TickEndsExactly(p: Params, log: Log, e: Event)
    requires Run(p, log) && e.Tick? && Legal(After(p, log), e)
    ensures var s := After(p, log);
            forall id :: id in s.sessions ==>
              && (id !in Apply(p, s, e).sessions <==> Misses(log + [e], id) >= p.limit)
              && (p.limit >= 1 ==> (id !in Apply(p, s, e).sessions <==> id in e.fired && Misses(log, id) + 1 == p.limit))
  {
    var s := After(p, log);
    TablesAgree(p, log);
    assert Earlier(log + [e]) == log;
    forall id | id in s.sessions
      ensures s.counts[id] == Misses(log, id) && (p.limit >= 1 ==> Misses(log, id) < p.limit)
    {
      CountsAreExact(p, log, id);
    }
  }

  /** A tick fires every timer that was expired when it first looked at the clock, and none twice. */
  lemma TickFiresExpired(s: State, e: Event, id: SessionId)
    requires e.Tick? && Legal(s, e) && id in s.timers && e.readings != [] && Expired(s.timers[id], e.readings[0])
    ensures exists k :: 0 <= k < |e.fired| && e.fired[k] == id && forall j :: 0 <= j < |e.fired| && e.fired[j] == id ==> j == k
  {
  }

  /** What a tick does to a session that survives it; k says where among the fired it is, if it is. */
  lemma TickEffect(p: Params, s: State, e: Event, id: SessionId) returns (k: nat)
    requires e.Tick? && Legal(s, e) && Aligned(s) && id in s.sessions && id in Apply(p, s, e).sessions
    ensures var s' := Apply(p, s, e);
            && id in s'.timers && id in s'.counts
            && (id in e.fired ==> k < |e.fired| && e.fired[k] == id
                                  && s.timers[id] - e.readings[k] < MS && e.readings[k] <= e.rearm[k]
                                  && s'.timers[id] == e.rearm[k] + p.T() && s'.counts[id] == s.counts[id] + 1)
            && (id !in e.fired ==> e.start + MS <= s.timers[id] == s'.timers[id] && s'.counts[id] == s.counts[id])
  {
    StepKeepsAligned(p, s, e);
    RearmedAt(s.timers, e.fired, e.rearm, p.T());
    if id in e.fired {
      k :| 0 <= k < |e.fired| && e.fired[k] == id;
      ExpiredIff(s.timers[id], e.readings[k]);
    } else {
      k := 0;
      ExpiredIff(s.timers[id], e.readings[|e.fired|]);
    }
  }

  /** A tick that ends a session leaves no node that is, or sits below, one of its nodes. */
  lemma TickSweeps(p: Params, s: State, e: Event, id: SessionId, q: Path)
    requires e.Tick? && Legal(s, e) && id in Died(p, s, e)
    ensures !Doomed(Apply(p, s, e).tree, q, {id})
  {
    var dead, tree := Died(p, s, e), Apply(p, s, e).tree;
    NothingOwnedRemains(s.tree, dead, q);
    assert forall a :: OwnedAt(tree, a, {id}) ==> OwnedAt(tree, a, dead);
  }

  /**
   A tick takes from the tree exactly what lies at or below a node of a session it ends: q stays,
   as it was, iff every session node at or above it whose owner was registered still has it so.
   */
  lemma TickSparesExactly(p: Params, s: State, e: Event, q: Path)
    requires e.Tick? && Legal(s, e) && Aligned(s)
    ensures var s' := Apply(p, s, e);
            && (q in s'.tree <==>
                  q in s.tree && forall a :: OwnedAt(s.tree, a, s.sessions) && a <= q ==> s.tree[a].owner in s'.sessions)
            && (q in s'.tree ==> s'.tree[q] == s.tree[q])
  {
    var dead := Died(p, s, e);
    RemoveOwnedExact(s.tree, dead, q);
    assert dead <= s.sessions;
    assert forall a :: OwnedAt(s.tree, a, dead) <==> OwnedAt(s.tree, a, s.sessions) && s.tree[a].owner in dead;
  }

  // ---- Nobody dies early ----

  /** The deadline after c misses is no earlier than c shortest periods after the first one. */
  ghost predicate NotEarly(p: Params, s: State, id: SessionId, beat: int)
    requires id in s.timers && id in s.counts
  {
    s.timers[id] >= beat + p.T() + s.counts[id] * p.Shortest()
  }

  lemma OneMore(c: int, x: int)
    ensures (c + 1) * x == c * x + x
  {
  }

  lemma TickNotEarly(p: Params, s: State, e: Event, id: SessionId, beat: int)
    requires e.Tick? && Legal(s, e) && Aligned(s) && id in s.sessions
    requires NotEarly(p, s, id, beat) && beat <= s.clock
    ensures var s' := Apply(p, s, e);
            id in s'.sessions ==> id in s'.timers && id in s'.counts && NotEarly(p, s', id, beat)
  {
    if id in Apply(p, s, e).sessions {
      var k := TickEffect(p, s, e, id);
      assert id in e.fired ==> beat <= e.rearm[k];
      OneMore(s.counts[id], p.Shortest());
    }
  }

  lemma {:induction false} LastBeatPast(p: Params, log: Log, id: SessionId)
    requires Run(p, log)
    ensures LastBeat(p, log, id) <= After(p, log).clock
    decreases |log|
  {
    if log != [] {
      LastBeatPast(p, Earlier(log), id);
    }
  }

  lemma {:induction false} DeadlineNotEarly(p: Params, log: Log, id: SessionId)
    requires Run(p, log) && id in After(p, log).sessions
    ensures id in After(p, log).timers && id in After(p, log).counts
    ensures NotEarly(p, After(p, log), id, LastBeat(p, log, id))
    decreases |log|
  {
    TablesAgree(p, log);
    if log != [] {
      TablesAgree(p, Earlier(log));
      if !IsBeat(Latest(log), id) {
        DeadlineNotEarly(p, Earlier(log), id);
        LastBeatPast(p, Earlier(log), id);
        if Latest(log).Tick? {
          TickNotEarly(p, After(p, Earlier(log)), Latest(log), id, LastBeat(p, log, id));
        }
      }
    }
  }

  /** After log, tick e ends session id. */
  ghost predicate Ends(p: Params, log: Log, e: Event, id: SessionId)
  {
    && Run(p, log) && e.Tick? && Legal(After(p, log), e)
    && id in After(p, log).sessions && id !in Apply(p, After(p, log), e).sessions
  }

  lemma LastMiss(p: Params, deadline: int, reading: int, beat: int, c: int)
    requires deadline >= beat + p.T() + c * p.Shortest() && deadline - reading < MS && c + 1 == p.limit
    requires p.timeoutMs >= 1 || reading >= beat
    ensures reading >= beat + p.limit * p.Shortest()
  {
    OneMore(c, p.Shortest());
  }

  /**
   A session that a tick removes was found expired no sooner than limit shortest periods after its
   latest heartbeat: each period is short by at most the millisecond, less one clock unit, that the
   truncation gives away.
   */
  lemma NoEarlyDeath(p: Params, log: Log, e: Event, id: SessionId) returns (k: nat)
    requires Ends(p, log, e, id) && p.limit >= 1
    ensures k < |e.fired| && e.fired[k] == id
    ensures e.readings[k] >= LastBeat(p, log, id) + p.limit * p.Shortest()
  {
    var s := After(p, log);
    TickEndsExactly(p, log, e);
    CountsAreExact(p, log, id);
    DeadlineNotEarly(p, log, id);
    LastBeatPast(p, log, id);
    k :| 0 <= k < |e.fired| && e.fired[k] == id;
    ExpiredIff(s.timers[id], e.readings[k]);
    LastMiss(p, s.timers[id], e.readings[k], LastBeat(p, log, id), s.counts[id]);
  }

  /** In terms of the whole tick, and for every limit: one that is not positive lets the next tick end every session. */
  lemma EndsLate(p: Params, log: Log, e: Event, id: SessionId)
    requires Ends(p, log, e, id)
    ensures e.finish >= LastBeat(p, log, id) + p.Least()
  {
    LastBeatPast(p, log, id);
    if p.limit >= 1 {
      var k := NoEarlyDeath(p, log, e, id);
    }
  }

  /** The state with one session only: deadline d, count c, latest clock reading now, and an untouched tree. */
  function Alone(id: SessionId, now: int, d: int, c: int): State
  {
    State(now, map[id := d], map[id := c], {id}, INITIAL)
  }

  /** A tick, all at time t, at which the timers of the sessions fired fire. */
  function TickAt(fired: seq<SessionId>, t: int): Event
    requires |fired| <= 1
  {
    Tick(t, fired, [t], seq(|fired|, _ => t), t)
  }

  /** Alone, a session's timer may fire once less than a millisecond is left. */
  lemma FireAlone(p: Params, id: SessionId, now: int, d: int, c: int, t: int)
    requires now <= t && d - t < MS
    ensures var s, e := Alone(id, now, d, c), TickAt([id], t);
            && Legal(s, e)
            && (c + 1 < p.limit ==> Apply(p, s, e) == Alone(id, t, t + p.T(), c + 1))
            && (c + 1 >= p.limit ==> id !in Apply(p, s, e).sessions)
  {
    var s, e := Alone(id, now, d, c), TickAt([id], t);
    ExpiredIff(d, t);
    FireLegal(s, id, t);
    assert e.rearm == [t];
    assert Rearmed(s.timers, [id], [t], p.T()) == map[id := t + p.T()];
    assert Bumped(s.counts, [id]) == map[id := c + 1];
    if c + 1 < p.limit {
      assert Died(p, s, e) == {};
      RemoveNobody(INITIAL);
    } else {
      assert id in Died(p, s, e);
    }
  }

  /** With a millisecond or more left a tick leaves the timer alone, and the session, unless its count is over the limit. */
  lemma QuietAlone(p: Params, id: SessionId, now: int, d: int, c: int, t: int)
    requires now <= t && d - t >= MS
    ensures var s, e := Alone(id, now, d, c), TickAt([], t);
            && Legal(s, e)
            && (c < p.limit ==> Apply(p, s, e) == Alone(id, t, d, c))
            && (c >= p.limit ==> id !in Apply(p, s, e).sessions)
  {
    var s, e := Alone(id, now, d, c), TickAt([], t);
    ExpiredIff(d, t);
    assert Bumped(s.counts, []) == s.counts;
    if c < p.limit {
      assert Died(p, s, e) == {};
      RemoveNobody(INITIAL);
    } else {
      assert id in Died(p, s, e);
    }
  }

  lemma FireLegal(s: State, id: SessionId, t: int)
    requires s.clock <= t && s.timers.Keys == {id} && Expired(s.timers[id], t)
    ensures Legal(s, TickAt([id], t))
  {
    assert TickAt([id], t).rearm == [t];
  }

  /** The end of the n-th of a series of equal periods. */
  function Moment(start: int, n: nat, period: int): int
  {
    if n == 0 then start else Moment(start, n - 1, period) + period
  }

  lemma {:induction false} MomentIs(start: int, n: nat, period: int)
    ensures Moment(start, n, period) == start + n * period
  {
    if n > 0 {
      MomentIs(start, n - 1, period);
      OneMore(n - 1, period);
    }
  }

  /** After log the session is alone, last heard of at boot. */
  ghost predicate AloneAfter(p: Params, log: Log, id: SessionId, now: int, d: int, c: int)
  {
    Run(p, log) && After(p, log) == Alone(id, now, d, c) && LastBeat(p, log, id) == p.boot
  }

  /** AloneAfter with the timer just set. */
  ghost predicate Aged(p: Params, log: Log, id: SessionId, now: int, c: int)
  {
    AloneAfter(p, log, id, now, now + p.T(), c)
  }

  /** One shortest period: a tick as soon as the timer can fire. */
  lemma ShortRound(p: Params, log: Log, id: SessionId, now: int, c: int) returns (longer: Log, next: int)
    requires Aged(p, log, id, now, c - 1) && c < p.limit
    ensures Aged(p, longer, id, next, c) && next == now + p.Shortest()
  {
    next := now + p.Shortest();
    longer := Fired(p, log, id, now, now + p.T(), c - 1, next);
  }

  /** The shortest life: a connect at boot, then n ticks, each as soon as the timer can fire. */
  lemma {:induction false} ShortLife(p: Params, id: SessionId, n: nat) returns (log: Log, now: int)
    requires n == 0 || n < p.limit
    ensures Aged(p, log, id, now, n) && now == Moment(p.boot, n, p.Shortest())
  {
    if n == 0 {
      log, now := NewlyConnected(p, id);
    } else {
      var shorter, before := ShortLife(p, id, n - 1);
      log, now := ShortRound(p, shorter, id, before, n);
    }
  }

  lemma NewlyConnected(p: Params, id: SessionId) returns (log: Log, now: int)
    ensures now == p.boot && log == [Connect(id, now)] && Aged(p, log, id, now, 0)
  {
    log, now := [Connect(id, p.boot)], p.boot;
    FirstConnect(p, id);
  }

  lemma FirstConnect(p: Params, id: SessionId)
    ensures AloneAfter(p, [Connect(id, p.boot)], id, p.boot, p.boot + p.T(), 0)
  {
    RunOfOne(p, Connect(id, p.boot));
  }

  /** A log after which the session is alone goes on with a tick that fires its timer. */
  lemma Fired(p: Params, log: Log, id: SessionId, now: int, d: int, c: int, t: int) returns (longer: Log)
    requires AloneAfter(p, log, id, now, d, c) && now <= t && d - t < MS && c + 1 < p.limit
    ensures longer == log + [TickAt([id], t)] && AloneAfter(p, longer, id, t, t + p.T(), c + 1)
  {
    longer := log + [TickAt([id], t)];
    FireAlone(p, id, now, d, c, t);
    RunStep(p, log, TickAt([id], t));
    BeatBefore(p, log, TickAt([id], t), id);
  }

  lemma BeatBefore(p: Params, log: Log, e: Event, id: SessionId)
    requires !IsBeat(e, id)
    ensures LastBeat(p, log + [e], id) == LastBeat(p, log, id)
  {
    assert Earlier(log + [e]) == log;
  }

  /** The bound of EndsLate is attained, whatever the timeout, the limit and the session. */
  lemma EarliestDeath(p: Params, id: SessionId) returns (log: Log, e: Event)
    ensures Ends(p, log, e, id) && e.finish == LastBeat(p, log, id) + p.Least()
  {
    if p.limit >= 1 {
      log, e := EarliestByLimit(p, id);
      MomentIs(p.boot, p.limit, p.Shortest());
    } else {
      log, e := [Connect(id, p.boot)], TickAt(if p.T() >= MS then [] else [id], p.boot);
      FirstConnect(p, id);
      FirstTick(p, log, id, p.boot, p.boot + p.T());
    }
  }

  /** After log, tick e, done by t, ends the session last heard of at boot. */
  ghost predicate EndsBy(p: Params, log: Log, e: Event, id: SessionId, t: int)
  {
    Ends(p, log, e, id) && e.finish == t && LastBeat(p, log, id) == p.boot
  }

  lemma EarliestByLimit(p: Params, id: SessionId) returns (log: Log, e: Event)
    requires p.limit >= 1
    ensures EndsBy(p, log, e, id, Moment(p.boot, p.limit, p.Shortest()))
  {
    var n, now := p.limit - 1, p.boot;
    log, now := ShortLife(p, id, n);
    e := LastRound(p, log, id, now, n);
  }

  /** One more shortest period, and the limit is reached. */
  lemma LastRound(p: Params, log: Log, id: SessionId, now: int, c: int) returns (e: Event)
    requires Aged(p, log, id, now, c) && c + 1 >= p.limit
    ensures EndsBy(p, log, e, id, now + p.Shortest())
  {
    e := LastFiring(p, log, id, now, now + p.T(), c, now + p.Shortest());
  }

  lemma LastFiring(p: Params, log: Log, id: SessionId, now: int, d: int, c: int, t: int) returns (e: Event)
    requires AloneAfter(p, log, id, now, d, c) && now <= t && d - t < MS && c + 1 >= p.limit
    ensures Ends(p, log, e, id) && e.finish == t
  {
    e := TickAt([id], t);
    FireAlone(p, id, now, d, c, t);
  }

  lemma FirstTick(p: Params, log: Log, id: SessionId, now: int, d: int)
    requires AloneAfter(p, log, id, now, d, 0) && p.limit <= 0
    ensures Ends(p, log, TickAt(if d - now >= MS then [] else [id], now), id)
  {
    if d - now >= MS {
      QuietAlone(p, id, now, d, 0, now);
    } else {
      FireAlone(p, id, now, d, 0, now);
    }
  }

  /** No session is ended before it has been silent for b. */
  ghost predicate LivesAtLeast(p: Params, b: int)
  {
    forall log, e, id :: Ends(p, log, e, id) ==> e.finish >= LastBeat(p, log, id) + b
  }

  /** Exactly how long every session is let live. */
  lemma LivesAtLeastIff(p: Params, b: int)
    ensures LivesAtLeast(p, b) <==> b <= p.Least()
  {
    if b <= p.Least() {
      forall log, e, id | Ends(p, log, e, id)
        ensures e.finish >= LastBeat(p, log, id) + b
      {
        EndsLate(p, log, e, id);
      }
    } else {
      var log, e := EarliestDeath(p, 0);
    }
  }

  lemma AtMost(c: int, n: int, x: int)
    requires c <= n && x >= 0
    ensures c * x <= n * x
  {
  }

  /** limit full periods, as documented, are granted only where they say nothing. */
  lemma FullPeriodsIff(p: Params)
    requires p.limit >= 1
    ensures LivesAtLeast(p, p.limit * p.T()) <==> p.timeoutMs <= 0
  {
    LivesAtLeastIff(p, p.limit * p.T());
    if p.timeoutMs <= 0 {
      AtMost(0, p.limit, -p.T());
    } else {
      Shorter(p.limit, p.Shortest(), p.T());
    }
  }

  lemma Shorter(n: int, x: int, y: int)
    requires n >= 1 && x < y
    ensures n * x < n * y
  {
  }

  /** While the client is registered, every tick is over before its heartbeat is old enough to end the session. */
  ghost predicate Diligent(p: Params, log: Log, id: SessionId)
    requires Run(p, log)
    decreases |log|
  {
    log != [] ==>
    && Diligent(p, Earlier(log), id)
    && (Latest(log).Tick? && id in After(p, Earlier(log)).sessions ==>
          Latest(log).finish < LastBeat(p, Earlier(log), id) + p.Least())
  }

  predicate Connected(log: Log, id: SessionId)
  {
    exists i :: 0 <= i < |log| && log[i].Connect? && log[i].id == id
  }

  /** Whatever happens before a client connects, and however late it does, tells nothing against it. */
  lemma {:induction false} DiligentUntilConnected(p: Params, log: Log, id: SessionId)
    requires Run(p, log) && !Connected(log, id)
    ensures Diligent(p, log, id) && id !in After(p, log).sessions
    decreases |log|
  {
    if log != [] {
      assert forall i :: 0 <= i < |Earlier(log)| ==> Earlier(log)[i] == log[i];
      DiligentUntilConnected(p, Earlier(log), id);
    }
  }

  /** Once connected, whenever that was, a diligent client is registered for good. */
  lemma {:induction false} DiligentClientStays(p: Params, log: Log, id: SessionId)
    requires Run(p, log) && Diligent(p, log, id) && Connected(log, id)
    ensures id in After(p, log).sessions
    decreases |log|
  {
    var i :| 0 <= i < |log| && log[i].Connect? && log[i].id == id;
    if i < |log| - 1 {
      assert Earlier(log)[i] == log[i];
      DiligentClientStays(p, Earlier(log), id);
      if Latest(log).Tick? && id !in After(p, log).sessions {
        EndsLate(p, Earlier(log), Latest(log), id);
      }
    }
  }

  // ---- Silent sessions die ----

  /** With ticks at most g apart, c misses push the deadline out by at most c longest periods. */
  ghost predicate NotLate(p: Params, s: State, id: SessionId, beat: int, tick: int, g: int)
    requires id in s.timers && id in s.counts
  {
    tick + p.Lead() <= s.timers[id] <= beat + p.T() + s.counts[id] * p.Longest(g)
  }

  lemma OnePeriodLater(p: Params, deadline: int, rearm: int, beat: int, c: int, tick: int, g: int)
    requires tick + p.Lead() <= deadline <= beat + p.T() + c * p.Longest(g) && rearm <= tick + g
    ensures rearm + p.T() <= beat + p.T() + (c + 1) * p.Longest(g)
  {
    OneMore(c, p.Longest(g));
  }

  lemma TickNotLate(p: Params, s: State, e: Event, id: SessionId, beat: int, tick: int, g: int)
    requires e.Tick? && Legal(s, e) && Aligned(s) && id in s.sessions
    requires e.finish <= tick + g
    requires NotLate(p, s, id, beat, tick, g)
    ensures var s' := Apply(p, s, e);
            id in s'.sessions ==> id in s'.timers && id in s'.counts && NotLate(p, s', id, beat, e.start, g)
  {
    if id in Apply(p, s, e).sessions {
      var k := TickEffect(p, s, e, id);
      if id in e.fired {
        assert e.start <= e.rearm[k] <= e.finish;
        OnePeriodLater(p, s.timers[id], e.rearm[k], beat, s.counts[id], tick, g);
      }
    }
  }

  lemma {:induction false} DeadlineNotLate(p: Params, log: Log, id: SessionId, g: int)
    requires Run(p, log) && Paced(p, log, g) && id in After(p, log).sessions
    ensures id in After(p, log).timers && id in After(p, log).counts
    ensures NotLate(p, After(p, log), id, LastBeat(p, log, id), LastTick(p, log), g)
    ensures LastTick(p, log) <= After(p, log).clock
    decreases |log|
  {
    TablesAgree(p, log);
    LastTickPast(p, log);
    if log != [] {
      TablesAgree(p, Earlier(log));
      LastTickPast(p, Earlier(log));
      if !IsBeat(Latest(log), id) {
        DeadlineNotLate(p, Earlier(log), id, g);
        if Latest(log).Tick? {
          TickNotLate(p, After(p, Earlier(log)), Latest(log), id, LastBeat(p, log, id), LastTick(p, Earlier(log)), g);
        }
      }
    }
  }

  lemma {:induction false} LastTickPast(p: Params, log: Log)
    requires Run(p, log)
    ensures LastTick(p, log) <= After(p, log).clock
    decreases |log|
  {
    if log != [] {
      LastTickPast(p, Earlier(log));
    }
  }

  lemma PacedNow(p: Params, log: Log, g: int)
    requires Run(p, log) && Paced(p, log, g) && log != []
    ensures After(p, log).clock <= LastTick(p, log) + g && g >= 0
  {
    LastTickPast(p, Earlier(log));
    LastTickPast(p, log);
  }

  lemma Overdue(p: Params, deadline: int, clock: int, beat: int, c: int, tick: int, g: int)
    requires tick + p.Lead() <= deadline <= beat + p.T() + c * p.Longest(g) && clock <= tick + g
    requires c < p.limit && g >= 0
    ensures clock <= beat + p.limit * p.Longest(g)
  {
    OneMore(c, p.Longest(g));
    AtMost(c + 1, p.limit, p.Longest(g));
  }

  /** With a limit that is not positive a session does not outlive the first tick after its heartbeat. */
  lemma {:induction false} NoTickSince(p: Params, log: Log, id: SessionId)
    requires Run(p, log) && p.limit <= 0 && id in After(p, log).sessions
    ensures LastTick(p, log) <= LastBeat(p, log, id)
    decreases |log|
  {
    if log != [] {
      TablesAgree(p, Earlier(log));
      LastTickPast(p, Earlier(log));
      if Latest(log).Tick? {
        TickEndsExactly(p, Earlier(log), Latest(log));
      } else if !IsBeat(Latest(log), id) {
        NoTickSince(p, Earlier(log), id);
      }
    }
  }

  /** A registered session has been heard of within the last limit longest periods. */
  lemma RegisteredIsRecent(p: Params, log: Log, id: SessionId, g: int)
    requires Run(p, log) && Paced(p, log, g) && id in After(p, log).sessions
    ensures After(p, log).clock <= LastBeat(p, log, id) + p.Most(g)
  {
    var s := After(p, log);
    PacedNow(p, log, g);
    if p.limit >= 1 {
      DeadlineNotLate(p, log, id, g);
      CountsAreExact(p, log, id);
      Overdue(p, s.timers[id], s.clock, LastBeat(p, log, id), s.counts[id], LastTick(p, log), g);
    } else {
      NoTickSince(p, log, id);
    }
  }

  /** Alone since boot, as AloneAfter, with ticks at most g apart, the latest of them (or the boot) just now. */
  ghost predicate IdleAfter(p: Params, log: Log, g: int, id: SessionId, now: int, d: int, c: int)
  {
    AloneAfter(p, log, id, now, d, c) && LastTick(p, log) == now && Paced(p, log, g)
  }

  lemma PacedStep(p: Params, log: Log, e: Event, g: int)
    requires Run(p, log) && Paced(p, log, g) && Legal(After(p, log), e)
    requires Apply(p, After(p, log), e).clock <= LastTick(p, log) + g
    ensures Run(p, log + [e]) && Paced(p, log + [e], g)
    ensures LastTick(p, log + [e]) == if e.Tick? then e.start else LastTick(p, log)
  {
    RunStep(p, log, e);
    assert Earlier(log + [e]) == log;
  }

  lemma QuietTick(p: Params, log: Log, g: int, id: SessionId, now: int, d: int, c: int, t: int) returns (longer: Log)
    requires IdleAfter(p, log, g, id, now, d, c) && now <= t <= now + g && d - t >= MS && c < p.limit
    ensures IdleAfter(p, longer, g, id, t, d, c)
  {
    longer := log + [TickAt([], t)];
    QuietAlone(p, id, now, d, c, t);
    RunStep(p, log, TickAt([], t));
    PacedStep(p, log, TickAt([], t), g);
    BeatBefore(p, log, TickAt([], t), id);
  }

  lemma FiringTick(p: Params, log: Log, g: int, id: SessionId, now: int, d: int, c: int, t: int) returns (longer: Log)
    requires IdleAfter(p, log, g, id, now, d, c) && now <= t <= now + g && d - t < MS && c + 1 < p.limit
    ensures IdleAfter(p, longer, g, id, t, t + p.T(), c + 1)
  {
    longer := Fired(p, log, id, now, d, c, t);
    FireAlone(p, id, now, d, c, t);
    PacedStep(p, log, TickAt([id], t), g);
  }

  /** Ticks at most g apart pass until a given moment no later than a millisecond before the deadline. */
  lemma {:induction false} Waiting(p: Params, log: Log, g: int, id: SessionId, now: int, d: int, c: int, until: int)
    returns (longer: Log)
    requires IdleAfter(p, log, g, id, now, d, c) && g >= 1 && c < p.limit
    requires now <= until && (now < until ==> d - until >= MS)
    ensures IdleAfter(p, longer, g, id, until, d, c)
    decreases until - now
  {
    if now == until {
      longer := log;
    } else {
      var t := if now + g < until then now + g else until;
      longer := QuietTick(p, log, g, id, now, d, c, t);
      longer := Waiting(p, longer, g, id, t, d, c, until);
    }
  }

  /** One longest period: a tick just too early to fire the timer, then the next one as late as may be. */
  lemma LongRound(p: Params, log: Log, g: int, id: SessionId, now: int, c: int) returns (longer: Log, next: int)
    requires IdleAfter(p, log, g, id, now, now + p.T(), c - 1)
    requires g >= 1 && c < p.limit
    ensures IdleAfter(p, longer, g, id, next, next + p.T(), c) && next == now + p.Longest(g)
  {
    var d := now + p.T();
    var pause := d - p.Lead();
    var waited := Waiting(p, log, g, id, now, d, c - 1, pause);
    next := pause + g;
    longer := FiringTick(p, waited, g, id, pause, d, c - 1, next);
  }

  /** The longest life with n misses. */
  lemma {:induction false} LongLife(p: Params, id: SessionId, g: int, n: nat) returns (log: Log, now: int)
    requires g >= 1 && (n == 0 || n < p.limit)
    ensures IdleAfter(p, log, g, id, now, now + p.T(), n) && now == Moment(p.boot, n, p.Longest(g))
  {
    if n == 0 {
      log, now := NewlyConnected(p, id);
      PacedFirst(p, id, g);
    } else {
      var shorter, before := LongLife(p, id, g, n - 1);
      log, now := LongRound(p, shorter, g, id, before, n);
    }
  }

  lemma PacedFirst(p: Params, id: SessionId, g: int)
    requires g >= 0
    ensures Run(p, [Connect(id, p.boot)]) && Paced(p, [Connect(id, p.boot)], g)
    ensures LastTick(p, [Connect(id, p.boot)]) == p.boot
  {
    RunOfOne(p, Connect(id, p.boot));
    assert [] + [Connect(id, p.boot)] == [Connect(id, p.boot)];
    PacedStep(p, [], Connect(id, p.boot), g);
  }

  /** The bound of RegisteredIsRecent is attained: another session's connect finds this one still registered. */
  lemma LatestSighting(p: Params, id: SessionId, g: int) returns (log: Log)
    requires g >= 1
    ensures Lingers(p, log, id, g) && After(p, log).clock == LastBeat(p, log, id) + p.Most(g)
  {
    if p.limit >= 1 {
      log := LatestByLimit(p, id, g);
    } else {
      log := LatestWithoutLimit(p, id, g);
    }
  }

  lemma LatestByLimit(p: Params, id: SessionId, g: int) returns (log: Log)
    requires g >= 1 && p.limit >= 1
    ensures Lingers(p, log, id, g)
    ensures After(p, log).clock == p.boot + p.limit * p.Longest(g) && LastBeat(p, log, id) == p.boot
  {
    var alone, before := LongLife(p, id, g, p.limit - 1);
    log := LastSighting(p, alone, g, id, before);
    MomentIs(p.boot, p.limit, p.Longest(g));
  }

  lemma LatestWithoutLimit(p: Params, id: SessionId, g: int) returns (log: Log)
    requires g >= 1
    ensures Lingers(p, log, id, g) && After(p, log).clock == p.boot + g && LastBeat(p, log, id) == p.boot
  {
    FirstConnect(p, id);
    PacedFirst(p, id, g);
    log := Sighting(p, [Connect(id, p.boot)], g, id, p.boot, p.boot + p.T(), 0, p.boot + g);
  }

  lemma LastSighting(p: Params, log: Log, g: int, id: SessionId, now: int) returns (longer: Log)
    requires IdleAfter(p, log, g, id, now, now + p.T(), p.limit - 1) && g >= 1
    ensures Lingers(p, longer, id, g)
    ensures After(p, longer).clock == now + p.Longest(g) && LastBeat(p, longer, id) == p.boot
  {
    var d := now + p.T();
    var pause := d - p.Lead();
    var waited := Waiting(p, log, g, id, now, d, p.limit - 1, pause);
    longer := Sighting(p, waited, g, id, pause, d, p.limit - 1, pause + g);
  }

  /** Another session connects. */
  lemma Sighting(p: Params, log: Log, g: int, id: SessionId, now: int, d: int, c: int, t: int) returns (longer: Log)
    requires IdleAfter(p, log, g, id, now, d, c) && now <= t <= now + g
    ensures Lingers(p, longer, id, g)
    ensures After(p, longer).clock == t && LastBeat(p, longer, id) == p.boot
  {
    var e := Connect(id + 1, t);
    longer := log + [e];
    RunStep(p, log, e);
    PacedStep(p, log, e, g);
    BeatBefore(p, log, e, id);
  }

  /** No session stays registered for longer than b after its latest heartbeat, with ticks at most g apart. */
  ghost predicate LivesAtMost(p: Params, g: int, b: int)
  {
    forall log, id :: Lingers(p, log, id, g) ==> After(p, log).clock <= LastBeat(p, log, id) + b
  }

  ghost predicate Lingers(p: Params, log: Log, id: SessionId, g: int)
  {
    Run(p, log) && Paced(p, log, g) && id in After(p, log).sessions
  }

  /** Exactly how long a session can outlive its latest heartbeat. */
  lemma LivesAtMostIff(p: Params, g: int, b: int)
    requires g >= 1
    ensures LivesAtMost(p, g, b) <==> b >= p.Most(g)
  {
    if b >= p.Most(g) {
      forall log, id | Lingers(p, log, id, g)
        ensures After(p, log).clock <= LastBeat(p, log, id) + b
      {
        RegisteredIsRecent(p, log, id, g);
      }
    } else {
      var log := LatestSighting(p, 0, g);
    }
  }

  // ---- Session nodes live no longer than their session ----

  /** If session id has nodes, it is registered. */
  ghost predicate OwnerLive(s: State, id: SessionId)
  {
    (exists q :: OwnedAt(s.tree, q, {id})) ==> id in s.sessions
  }

  ghost predicate OwnersLive(s: State)
  {
    forall id :: OwnerLive(s, id)
  }

  /** One event, one session: it keeps its nodes' owner registered unless it makes an orphan of this session. */
  lemma OwnerLiveStep(p: Params, s: State, e: Event, id: SessionId)
    requires Legal(s, e) && OwnerLive(s, id)
    ensures OwnerLive(Apply(p, s, e), id) <==> !(Orphans(s, e) && e.id == id)
  {
    var tree := Apply(p, s, e).tree;
    match e {
      case Tick(_, _, _, _, _) =>
        var dead := Died(p, s, e);
        forall q | OwnedAt(tree, q, {id})
          ensures id in s.sessions - dead
        {
          assert OwnedAt(s.tree, q, {id});
          assert OwnedAt(s.tree, q, dead) ==> Doomed(s.tree, q, dead);
        }
      case CreateNode(_, path, _, _) =>
        assert forall q :: OwnedAt(tree, q, {id}) && q != Paths.Split(path) ==> OwnedAt(s.tree, q, {id});
        if Orphans(s, e) && e.id == id {
          assert OwnedAt(tree, Paths.Split(path), {id});
        }
      case _ =>
        assert forall q :: OwnedAt(tree, q, {id}) ==> OwnedAt(s.tree, q, {id});
    }
  }

  /** One event: if all owners are registered before it, they are afterwards unless it makes an orphan. */
  lemma OwnersLiveStep(p: Params, s: State, e: Event)
    requires Legal(s, e) && OwnersLive(s)
    ensures OwnersLive(Apply(p, s, e)) <==> !Orphans(s, e)
  {
    forall id
      ensures OwnerLive(Apply(p, s, e), id) <==> !(Orphans(s, e) && e.id == id)
    {
      OwnerLiveStep(p, s, e, id);
    }
    if Orphans(s, e) {
      assert !OwnerLive(Apply(p, s, e), e.id);
    }
  }

  /** At every point of the run, if session id has nodes, it is registered. */
  ghost predicate OwnerAlwaysLive(p: Params, log: Log, id: SessionId)
    requires Run(p, log)
    decreases |log|
  {
    OwnerLive(After(p, log), id) && (log != [] ==> OwnerAlwaysLive(p, Earlier(log), id))
  }

  /** Exactly the runs in which the session gets no node while unregistered keep its nodes' owner registered. */
  lemma {:induction false} OwnerStaysRegisteredIff(p: Params, log: Log, id: SessionId)
    requires Run(p, log)
    ensures OwnerAlwaysLive(p, log, id) <==> OwnerRegistered(p, log, id)
    decreases |log|
  {
    if log != [] {
      OwnerStaysRegisteredIff(p, Earlier(log), id);
      if OwnerLive(After(p, Earlier(log)), id) {
        OwnerLiveStep(p, After(p, Earlier(log)), Latest(log), id);
      }
    }
  }

  /** At every point of the run every session node has a registered owner. */
  ghost predicate OwnersAlwaysLive(p: Params, log: Log)
    requires Run(p, log)
  {
    forall id :: OwnerAlwaysLive(p, log, id)
  }

  /** The same for all sessions at once. */
  lemma OwnersStayRegisteredIff(p: Params, log: Log)
    requires Run(p, log)
    ensures OwnersAlwaysLive(p, log) <==> OwnersRegistered(p, log)
  {
    forall id
      ensures OwnerAlwaysLive(p, log, id) <==> OwnerRegistered(p, log, id)
    {
      OwnerStaysRegisteredIff(p, log, id);
    }
  }

  /** What a session's end sweeps need not have been registered at its creation: only later orphans remain. */
  lemma {:induction false} UnorphanedIsLive(p: Params, log: Log, id: SessionId)
    requires Run(p, log) && Unorphaned(p, log, id)
    ensures OwnerLive(After(p, log), id)
    decreases |log|
  {
    if log != [] {
      if id !in After(p, Earlier(log)).sessions {
        UnorphanedIsLive(p, Earlier(log), id);
      }
      OwnerLiveStep(p, After(p, Earlier(log)), Latest(log), id);
    }
  }

  lemma {:induction false} OwnerRegisteredIsUnorphaned(p: Params, log: Log, id: SessionId)
    requires Run(p, log) && OwnerRegistered(p, log, id)
    ensures Unorphaned(p, log, id)
    decreases |log|
  {
    if log != [] {
      OwnerRegisteredIsUnorphaned(p, Earlier(log), id);
    }
  }

  /** No tick cleans orphans up: a node stays as it is while all session nodes at or above it have unregistered owners. */
  lemma OrphansOutliveTicks(p: Params, s: State, e: Event, q: Path)
    requires e.Tick? && Legal(s, e) && Aligned(s) && q in s.tree
    requires forall a, id :: OwnedAt(s.tree, a, {id}) && a <= q ==> id !in s.sessions
    ensures q in Apply(p, s, e).tree && Apply(p, s, e).tree[q] == s.tree[q]
  {
    var dead := Died(p, s, e);
    forall a | OwnedAt(s.tree, a, dead) && a <= q
      ensures false
    {
      assert OwnedAt(s.tree, a, {s.tree[a].owner});
    }
  }

  /** The assumption is needed: on a fresh server one create request with any session id breaks it. */
  lemma OrphanExample(p: Params, id: SessionId, name: string, data: string)
    requires name != "" && '/' !in name
    ensures var log := [CreateNode(id, "/" + Paths.Join([name]), data, EPHEMERAL)];
            Run(p, log) && !OwnersLive(After(p, log))
  {
    var e := CreateNode(id, "/" + Paths.Join([name]), data, EPHEMERAL);
    TopLevelCreateOk(name);
    RunOfOne(p, e);
    OwnersLiveStep(p, Init(p), e);
  }

  lemma TopLevelCreateOk(name: string)
    requires name != "" && '/' !in name
    ensures CreateOk(INITIAL, Paths.Split("/" + Paths.Join([name])))
  {
    var cs := [""] + [name];
    Paths.AbsolutePathRoundTrip([name]);
    assert Parent(cs) == [""];
  }

  lemma RunOfOne(p: Params, e: Event)
    requires Legal(Init(p), e)
    ensures Run(p, [e]) && After(p, [e]) == Apply(p, Init(p), e)
  {
    RunStep(p, [], e);
    assert [] + [e] == [e];
  }

  lemma {:induction false} TreeStaysWellFormed(p: Params, log: Log)
    requires Run(p, log)
    ensures WellFormed(After(p, log).tree)
    decreases |log|
  {
    if log != [] {
      var s, e := After(p, Earlier(log)), Latest(log);
      TreeStaysWellFormed(p, Earlier(log));
      match e {
        case CreateNode(id, path, data, kind) => CreateKeepsWellFormed(s.tree, id, path, data, kind);
        case SetNode(path, data) => SetKeepsWellFormed(s.tree, path, data);
        case DeleteNode(path) => DeleteKeepsWellFormed(s.tree, path);
        case Tick(_, _, _, _, _) => RemoveOwnedKeepsWellFormed(s.tree, Died(p, s, e));
        case _ =>
      }
    }
  }

  /**
   End to end: longer silent than limit longest periods, a session is in no table; and the tree
   holds none of its nodes and nothing below one, unless one was made since it was registered.
   */
  lemma SilentSessionIsGone(p: Params, log: Log, id: SessionId, g: int, t: int)
    requires Run(p, log) && Paced(p, log, g)
    requires LastBeat(p, log, id) <= t && After(p, log).clock > t + p.Most(g)
    ensures var s := After(p, log);
            && id !in s.sessions && id !in s.timers && id !in s.counts
            && (Unorphaned(p, log, id) ==> forall q :: q in s.tree ==> !Doomed(s.tree, q, {id}))
  {
    TablesAgree(p, log);
    if id in After(p, log).sessions {
      RegisteredIsRecent(p, log, id, g);
    }
    if Unorphaned(p, log, id) {
      UnorphanedIsLive(p, log, id);
      assert forall a :: !OwnedAt(After(p, log).tree, a, {id});
    }
  }
}
