/**
 The server's state told from its log, one question at a time: who is registered, when a timer
 was last set, what is stored at a place. Nothing defined here mentions the state; the lemmas
 say that the state is what is told.
 */
module ServerHistory {
  import opened Logs
  import opened NamespaceSpec
  import opened Options
  import opened Protocol
  import opened ProtocolTheorems
  import Paths

  /** Connected, and since then no tick has ended with the session's misses at the limit. */
  predicate Registered(p: Params, log: Log, id: SessionId)
    decreases |log|
  {
    && log != []
    && match Latest(log)
       case Connect(c, _) => c == id || Registered(p, Earlier(log), id)
       case Tick(_, _, _, _, _) => Registered(p, Earlier(log), id) && Misses(log, id) < p.limit
       case _ => Registered(p, Earlier(log), id)
  }

  /** The latest event is a tick, and it ends the session. */
  predicate EndedNow(p: Params, log: Log, id: SessionId)
    requires log != []
  {
    Latest(log).Tick? && Registered(p, Earlier(log), id) && !Registered(p, log, id)
  }

  lemma {:induction false} RegisteredIff(p: Params, log: Log, id: SessionId)
    requires Run(p, log)
    ensures id in After(p, log).sessions <==> Registered(p, log, id)
    decreases |log|
  {
    if log != [] {
      RegisteredIff(p, Earlier(log), id);
      if Latest(log).Tick? {
        TickEndsExactly(p, Earlier(log), Latest(log));
      }
    }
  }

  /** When the session's timer was last set: by a connect, a heartbeat or the callback of its latest expiry. */
  ghost function LastArmed(p: Params, log: Log, id: SessionId): int
    requires Run(p, log)
    decreases |log|
  {
    if log == [] then p.boot
    else if IsBeat(Latest(log), id) then Latest(log).now
    else if Latest(log).Tick? && id in Latest(log).fired then
      var k :| 0 <= k < |Latest(log).fired| && Latest(log).fired[k] == id;
      Latest(log).rearm[k]
    else LastArmed(p, Earlier(log), id)
  }

  /** A registered session's timer runs out exactly one timeout after it was last set. */
  lemma {:induction false} DeadlineIs(p: Params, log: Log, id: SessionId)
    requires Run(p, log) && id in After(p, log).sessions
    ensures id in After(p, log).timers && After(p, log).timers[id] == LastArmed(p, log, id) + p.T()
    decreases |log|
  {
    TablesAgree(p, log);
    if log != [] {
      var s, e := After(p, Earlier(log)), Latest(log);
      TablesAgree(p, Earlier(log));
      if !IsBeat(e, id) {
        DeadlineIs(p, Earlier(log), id);
        if e.Tick? {
          RearmedAt(s.timers, e.fired, e.rearm, p.T());
        }
      }
    }
  }

  /** The latest clock reading. */
  function LastReading(p: Params, log: Log): int
    decreases |log|
  {
    if log == [] then p.boot
    else
      match Latest(log)
      case Connect(_, now) => now
      case Heartbeat(_, now) => now
      case Tick(_, _, _, _, finish) => finish
      case _ => LastReading(p, Earlier(log))
  }

  lemma {:induction false} ClockIs(p: Params, log: Log)
    requires Run(p, log)
    ensures After(p, log).clock == LastReading(p, log)
    decreases |log|
  {
    if log != [] {
      ClockIs(p, Earlier(log));
    }
  }

  /**
   What is stored at place q: an accepted create put it there, the latest set gave it its data, and
   no delete at or above it, nor the end of a session with a node at or above it, has come since.
   */
  ghost function Stored(p: Params, log: Log, q: Path): Option<Payload>
    decreases |log|, 0
  {
    if log == [] then
      if q == [] then Some(Payload("dummy", PERSISTENT, 0))
      else if q == [""] then Some(Payload("root", PERSISTENT, 0))
      else None
    else
      var was := Stored(p, Earlier(log), q);
      match Latest(log)
      case CreateNode(id, path, data, kind) =>
        if was == None && q != [] && q == Paths.Split(path) && Stored(p, Earlier(log), q[..|q| - 1]) != None
        then Some(Payload(data, kind, if kind == EPHEMERAL then id else 0))
        else was
      case SetNode(path, data) =>
        if was != None && q != [] && q == Paths.Split(path)
        then Some(Payload(data, was.value.kind, was.value.owner))
        else was
      case DeleteNode(path) =>
        if |Paths.Split(path)| >= 2 && Paths.Split(path) <= q then None else was
      case Tick(_, _, _, _, _) =>
        if exists a :: a <= q && OwnerEndedNow(p, log, a) then None else was
      case _ => was
  }

  /** Place a held a session node, and the latest event ends that session. */
  ghost predicate OwnerEndedNow(p: Params, log: Log, a: Path)
    requires log != []
    decreases |log| - 1, 1
  {
    var node := Stored(p, Earlier(log), a);
    node != None && node.value.kind == EPHEMERAL && EndedNow(p, log, node.value.owner)
  }

  function At(v: View, q: Path): Option<Payload>
  {
    if q in v then Some(v[q]) else None
  }

  ghost predicate Told(p: Params, log: Log, v: View)
  {
    forall q :: At(v, q) == Stored(p, log, q)
  }

  /** A tick. */
  lemma TickTold(p: Params, log: Log)
    requires Run(p, log) && log != [] && Latest(log).Tick? && Told(p, Earlier(log), After(p, Earlier(log)).tree)
    ensures Told(p, log, After(p, log).tree)
  {
    var s, s' := After(p, Earlier(log)), After(p, log);
    TablesAgree(p, Earlier(log));
    forall q
      ensures At(s'.tree, q) == Stored(p, log, q)
    {
      TickSparesExactly(p, s, Latest(log), q);
      forall a
        ensures OwnerEndedNow(p, log, a) <==> OwnedAt(s.tree, a, s.sessions) && s.tree[a].owner !in s'.sessions
      {
        assert At(s.tree, a) == Stored(p, Earlier(log), a);
        if a in s.tree {
          RegisteredIff(p, Earlier(log), s.tree[a].owner);
          RegisteredIff(p, log, s.tree[a].owner);
        }
      }
      assert At(s.tree, q) == Stored(p, Earlier(log), q);
    }
  }

  /** A request. */
  lemma RequestTold(p: Params, log: Log)
    requires Run(p, log) && log != [] && !Latest(log).Tick? && Told(p, Earlier(log), After(p, Earlier(log)).tree)
    ensures Told(p, log, After(p, log).tree)
  {
    var s := After(p, Earlier(log));
    TreeStaysWellFormed(p, Earlier(log));
    forall q
      ensures At(After(p, log).tree, q) == Stored(p, log, q)
    {
      assert At(s.tree, q) == Stored(p, Earlier(log), q);
      match Latest(log) {
        case CreateNode(id, path, data, kind) =>
          CreateExact(s.tree, id, path, data, kind, q);
          if q != [] {
            assert At(s.tree, q[..|q| - 1]) == Stored(p, Earlier(log), q[..|q| - 1]);
          }
        case SetNode(path, data) => SetExact(s.tree, path, data, q);
        case DeleteNode(path) => DeleteExact(s.tree, path, q);
        case _ =>
      }
    }
  }

  /** In every run the tree holds, at every place, what the log tells. */
  lemma {:induction false} TreeIs(p: Params, log: Log)
    requires Run(p, log)
    ensures Told(p, log, After(p, log).tree)
    decreases |log|
  {
    if log != [] {
      TreeIs(p, Earlier(log));
      if Latest(log).Tick? {
        TickTold(p, log);
      } else {
        RequestTold(p, log);
      }
    }
  }

  /** The whole state, told from the log. */
  lemma StateIs(p: Params, log: Log)
    requires Run(p, log)
    ensures var s := After(p, log);
            && s.clock == LastReading(p, log)
            && s.timers.Keys == s.counts.Keys == s.sessions
            && (forall id :: id in s.sessions <==> Registered(p, log, id))
            && (forall id :: id in s.sessions ==>
                  s.timers[id] == LastArmed(p, log, id) + p.T() && s.counts[id] == Misses(log, id))
            && (forall q :: At(s.tree, q) == Stored(p, log, q))
  {
    var s := After(p, log);
    ClockIs(p, log);
    TablesAgree(p, log);
    TreeIs(p, log);
    forall id
      ensures id in s.sessions <==> Registered(p, log, id)
      ensures id in s.sessions ==> s.timers[id] == LastArmed(p, log, id) + p.T() && s.counts[id] == Misses(log, id)
    {
      RegisteredIff(p, log, id);
      if id in s.sessions {
        DeadlineIs(p, log, id);
        CountsAreExact(p, log, id);
      }
    }
  }
}
