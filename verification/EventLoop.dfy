/**
 Handing functors to the loop thread: the locked queue, the eventfd that ends a poll, and the
 m_callingPendingFunctors flag. Every interleaving of the loop with any number of other threads
 is a sequence of the atomic steps below.
 */
module EventLoops {
  import opened Logs

  type Functor = nat
  type Thread = nat

  /** Where the loop thread is. */
  datatype Pc =
    | Entering                // not yet in loop(), or before it resets m_quit
    | Top                     // about to test m_quit
    | Polling                 // in poll, possibly blocked
    | Handling(woken: bool)   // calling active channels; woken: the wakeup channel is active and not yet handled
    | Swapping                // m_callingPendingFunctors is set, the queue not yet swapped out
    | Draining                // running the swapped batch
    | Exited

  /** How far the loop thread is in a queueInLoop of its own. */
  datatype Own = Idle | Pushed | Owing

  datatype State = State(
    pc: Pc,
    quit: bool,
    calling: bool,            // m_callingPendingFunctors
    pending: seq<Functor>,    // m_pendingFunctors
    batch: seq<Functor>,      // what is left of the swapped-out vector
    eventfd: nat,
    owing: set<Thread>,       // other threads between their unlock (or quit) and their wakeup write
    own: Own,
    executed: seq<Functor>,   // history: what has been run
    enqueued: seq<Functor>,   // history: what has been queued, in lock order
    swapped: nat)             // history: how much had been queued at the latest swap

  datatype Step =
    | Push(t: Thread, f: Functor)   // another thread, under the lock
    | Quit(t: Thread)               // another thread
    | Wake(t: Thread)               // its write to the eventfd
    | OwnPush(f: Functor)           // the loop thread, from inside a callback or functor
    | OwnCheck
    | OwnWake
    | OwnQuit
    | Enter                         // m_looping = true, m_quit = false
    | TestQuit
    | PollReturn(woken: bool)
    | HandleRead
    | StartCalling
    | Swap
    | RunNext
    | StopCalling

  const INITIAL := State(Entering, false, false, [], [], 0, {}, Idle, [], [], 0)

  const EVENTFD_MAX: nat := 0xffff_ffff_ffff_fffe

  /** A write of 1: at its maximum the non-blocking eventfd refuses it and stays as it is. */
  function Written(eventfd: nat): nat
  {
    if eventfd < EVENTFD_MAX then eventfd + 1 else eventfd
  }

  /** The loop thread is inside a callback or a functor. */
  predicate InCallback(s: State)
  {
    (s.pc.Handling? || s.pc.Draining?) && s.own.Idle?
  }

  predicate Enabled(s: State, e: Step)
  {
    match e
    case Push(t, _) => t !in s.owing
    case Quit(t) => t !in s.owing
    case Wake(t) => t in s.owing
    case OwnPush(_) => InCallback(s)
    case OwnCheck => s.own.Pushed?
    case OwnWake => s.own.Owing?
    case OwnQuit => InCallback(s)
    case Enter => s.pc.Entering?
    case TestQuit => s.pc.Top?
    case PollReturn(woken) => s.pc.Polling? && (woken ==> s.eventfd > 0)
    case HandleRead => s.pc.Handling? && s.pc.woken && s.own.Idle?
    case StartCalling => s.pc.Handling? && !s.pc.woken && s.own.Idle?
    case Swap => s.pc.Swapping?
    case RunNext => s.pc.Draining? && s.own.Idle? && s.batch != []
    case StopCalling => s.pc.Draining? && s.own.Idle? && s.batch == []
  }

  function Next(s: State, e: Step): State
    requires Enabled(s, e)
  {
    match e
    case Push(t, f) =>
      s.(pending := s.pending + [f], enqueued := s.enqueued + [f], owing := s.owing + {t})
    case Quit(t) => s.(quit := true, owing := s.owing + {t})
    case Wake(t) => s.(eventfd := Written(s.eventfd), owing := s.owing - {t})
    case OwnPush(f) => s.(pending := s.pending + [f], enqueued := s.enqueued + [f], own := Pushed)
    case OwnCheck => s.(own := if s.calling then Owing else Idle)
    case OwnWake => s.(eventfd := Written(s.eventfd), own := Idle)
    case OwnQuit => s.(quit := true)
    case Enter => s.(pc := Top, quit := false)
    case TestQuit => s.(pc := if s.quit then Exited else Polling)
    case PollReturn(woken) => s.(pc := Handling(woken))
    case HandleRead => s.(pc := Handling(false), eventfd := 0)
    case StartCalling => s.(pc := Swapping, calling := true)
    case Swap => s.(pc := Draining, batch := s.pending, pending := [], swapped := |s.enqueued|)
    case RunNext => s.(executed := s.executed + [s.batch[0]], batch := s.batch[1..])
    case StopCalling => s.(pc := Top, calling := false)
  }

  /** An interleaving that can happen. */
  predicate Run(run: seq<Step>)
    decreases |run|, 0
  {
    run == [] || (Run(Earlier(run)) && Enabled(After(Earlier(run)), Latest(run)))
  }

  function After(run: seq<Step>): State
    requires Run(run)
    decreases |run|, 1
  {
    if run == [] then INITIAL else Next(After(Earlier(run)), Latest(run))
  }

  /** Nothing queued is lost, doubled or reordered. */
  ghost predicate Conserved(s: State)
  {
    s.executed + s.batch + s.pending == s.enqueued
  }

  /** A write that ends the poll has been made, or is on its way. */
  predicate WakeupUnderway(s: State)
  {
    s.eventfd > 0 || s.owing != {} || s.own.Owing? || (s.own.Pushed? && s.calling)
  }

  ghost predicate Consistent(s: State)
  {
    && (s.batch != [] ==> s.pc.Draining?)
    && (s.calling <==> s.pc.Swapping? || s.pc.Draining?)
    && (!s.own.Idle? ==> s.pc.Handling? || s.pc.Draining?)
    && (s.own.Owing? ==> s.pc.Draining?)
    && (s.pc.Handling? && s.pc.woken ==> s.eventfd > 0)
    && (s.pc.Exited? ==> s.quit)
    && |s.executed| + |s.batch| == s.swapped
  }

  ghost predicate NothingLost(s: State)
  {
    && (s.pending != [] && (s.pc.Entering? || s.pc.Draining? || s.pc.Top? || s.pc.Polling?) ==> WakeupUnderway(s))
    && (s.quit && s.pc.Polling? ==> WakeupUnderway(s))
  }

  ghost predicate Inv(s: State)
  {
    Conserved(s) && Consistent(s) && NothingLost(s)
  }

  lemma StepKeepsInv(s: State, e: Step)
    requires Inv(s) && Enabled(s, e)
    ensures Inv(Next(s, e))
  {
  }

  lemma {:induction false} InvHolds(run: seq<Step>)
    requires Run(run)
    ensures Inv(After(run))
    decreases |run|
  {
    if run != [] {
      InvHolds(Earlier(run));
      StepKeepsInv(After(Earlier(run)), Latest(run));
    }
  }

  /**
   Whenever a functor is pending and the loop is past its swap, at poll or not yet entered, the
   eventfd is readable or some thread still owes a write; and a poll with m_quit set is ended too.
   Which quits leave m_quit set says QuitIff.
   */
  lemma NoLostWakeup(run: seq<Step>)
    requires Run(run)
    ensures var s := After(run);
            && (s.pending != [] && (s.pc.Entering? || s.pc.Draining? || s.pc.Top? || s.pc.Polling?) ==> WakeupUnderway(s))
            && (s.quit && s.pc.Polling? ==> s.eventfd > 0 || s.owing != {})
  {
    InvHolds(run);
  }

  /** Read off the steps: a quit of any thread, and no entry into loop() after it. */
  predicate QuitSinceEntry(run: seq<Step>)
    decreases |run|
  {
    run != [] && (Latest(run).Quit? || Latest(run).OwnQuit? || (!Latest(run).Enter? && QuitSinceEntry(Earlier(run))))
  }

  predicate Entered(run: seq<Step>)
    decreases |run|
  {
    run != [] && (Latest(run).Enter? || Entered(Earlier(run)))
  }

  lemma StepSetsQuit(s: State, e: Step)
    requires Enabled(s, e)
    ensures Next(s, e).quit <==> e.Quit? || e.OwnQuit? || (!e.Enter? && s.quit)
    ensures Next(s, e).pc.Entering? <==> s.pc.Entering? && !e.Enter?
    ensures e.TestQuit? && s.quit ==> Next(s, e).pc.Exited?
    ensures s.pc.Exited? ==> Next(s, e).pc.Exited?
  {
  }

  /** m_quit is set exactly by the quits that no entry into loop() has wiped out. */
  lemma {:induction false} QuitIff(run: seq<Step>)
    requires Run(run)
    ensures After(run).quit <==> QuitSinceEntry(run)
    ensures After(run).pc.Entering? <==> !Entered(run)
    decreases |run|
  {
    if run != [] {
      QuitIff(Earlier(run));
      StepSetsQuit(After(Earlier(run)), Latest(run));
    }
  }

  lemma RunSplit(run: seq<Step>, more: seq<Step>)
    requires more != []
    ensures Earlier(run + more) == run + Earlier(more) && Latest(run + more) == Latest(more)
    ensures more == Earlier(more) + [Latest(more)]
  {
  }

  /** A quit made after the entry is honoured at the next test: the loop is left for good. */
  lemma {:induction false} QuitHonoured(run: seq<Step>, more: seq<Step>)
    requires Run(run + more) && Run(run) && Entered(run) && QuitSinceEntry(run)
    ensures After(run + more).quit && !After(run + more).pc.Entering?
    ensures TestQuit in more ==> After(run + more).pc.Exited?
    decreases |more|
  {
    if more == [] {
      assert run + more == run;
      QuitIff(run);
    } else {
      RunSplit(run, more);
      QuitHonoured(run, Earlier(more));
      StepSetsQuit(After(run + Earlier(more)), Latest(more));
    }
  }

  /** A quit made before the entry is lost: m_quit is reset, and the loop goes to poll. */
  lemma EarlyQuitLost(run: seq<Step>, t: Thread)
    requires Run(run) && !Entered(run) && t !in After(run).owing
    ensures var later := run + [Quit(t), Enter, TestQuit];
            Run(later) && After(later).pc.Polling? && !After(later).quit
  {
    QuitIff(run);
    RunStep(run, Quit(t));
    RunStep(run + [Quit(t)], Enter);
    RunStep(run + [Quit(t)] + [Enter], TestQuit);
    assert run + [Quit(t), Enter, TestQuit] == run + [Quit(t)] + [Enter] + [TestQuit];
  }

  /** At poll exactly what had been queued by the latest swap has been run, once each and in lock order. */
  lemma DeliveredAtPoll(run: seq<Step>)
    requires Run(run)
    ensures var s := After(run);
            && s.executed + s.batch + s.pending == s.enqueued
            && s.executed <= s.enqueued && s.swapped <= |s.enqueued|
            && (s.pc.Polling? ==> s.executed == s.enqueued[..s.swapped])
  {
    InvHolds(run);
    var s := After(run);
    assert s.enqueued[..|s.executed|] == s.executed;
  }

  lemma {:induction false} RunPrefix(run: seq<Step>, more: seq<Step>)
    requires Run(run + more)
    ensures Run(run) && After(run).enqueued <= After(run + more).enqueued
    decreases |more|
  {
    if more == [] {
      assert run + more == run;
    } else {
      RunSplit(run, more);
      RunPrefix(run, Earlier(more));
    }
  }

  lemma StepKeepsSwapped(s: State, e: Step)
    requires Enabled(s, e)
    ensures Next(s, e).swapped == if e.Swap? then |s.enqueued| else s.swapped
  {
  }

  lemma {:induction false} SwapCovers(run: seq<Step>, more: seq<Step>)
    requires Run(run + more) && Swap in more
    ensures Run(run) && |After(run).enqueued| <= After(run + more).swapped
    decreases |more|
  {
    RunSplit(run, more);
    RunPrefix(run, Earlier(more));
    StepKeepsSwapped(After(run + Earlier(more)), Latest(more));
    if Latest(more) != Swap {
      SwapCovers(run, Earlier(more));
    }
  }

  /** One round of the loop is enough: back at poll after a swap, everything queued before that swap has been run. */
  lemma RoundDelivers(run: seq<Step>, more: seq<Step>)
    requires Run(run + more) && Swap in more && After(run + more).pc.Polling?
    ensures Run(run) && After(run).enqueued <= After(run + more).executed
  {
    RunPrefix(run, more);
    SwapCovers(run, more);
    DeliveredAtPoll(run + more);
  }

  lemma RunStep(run: seq<Step>, e: Step)
    requires Run(run) && Enabled(After(run), e)
    ensures Run(run + [e]) && After(run + [e]) == Next(After(run), e)
  {
    assert Earlier(run + [e]) == run;
  }

  /** What a step queues. */
  function QueuedBy(e: Step): seq<Functor>
  {
    match e
    case Push(_, f) => [f]
    case OwnPush(f) => [f]
    case _ => []
  }

  lemma StepQueues(s: State, e: Step)
    requires Enabled(s, e)
    ensures Next(s, e).enqueued == s.enqueued + QueuedBy(e)
  {
  }

  /** Read off the steps: what has been queued, in lock order. */
  function Queued(run: seq<Step>): seq<Functor>
    decreases |run|
  {
    if run == [] then [] else Queued(Earlier(run)) + QueuedBy(Latest(run))
  }

  lemma {:induction false} EnqueuedIs(run: seq<Step>)
    requires Run(run)
    ensures After(run).enqueued == Queued(run)
    decreases |run|
  {
    if run != [] {
      EnqueuedIs(Earlier(run));
      StepQueues(After(Earlier(run)), Latest(run));
    }
  }

  /** Wherever the loop is, another thread that owes no write can queue and quit, and so can every callback and functor. */
  lemma Receptive(run: seq<Step>, t: Thread, f: Functor)
    requires Run(run)
    ensures t !in After(run).owing ==> Run(run + [Push(t, f)]) && Run(run + [Quit(t)])
    ensures After(run).pc.Handling? || After(run).pc.Draining? ==>
              (After(run).own.Idle? ==> Run(run + [OwnPush(f)]) && Run(run + [OwnQuit]))
  {
    assert forall e :: Earlier(run + [e]) == run && Latest(run + [e]) == e;
  }

  // ---- The loop comes round, and the wakeups are enough for it ----

  /**
   A step that nobody has to be asked for: an owed write, or the loop thread going on with what it
   is at; poll returns for the eventfd only.
   */
  predicate OfItself(e: Step)
  {
    match e
    case Push(_, _) => false
    case Quit(_) => false
    case OwnPush(_) => false
    case OwnQuit => false
    case PollReturn(woken) => woken
    case _ => true
  }

  /** The loop thread is never held up but in poll, which a timeout may end at any time and a readable eventfd does end. */
  lemma LoopGoesOn(run: seq<Step>) returns (e: Step)
    requires Run(run) && !After(run).pc.Exited?
    ensures Run(run + [e]) && !e.Wake?
    ensures !After(run).pc.Polling? || After(run).eventfd > 0 ==> OfItself(e)
    ensures After(run).pc.Polling? ==> e.PollReturn? && Run(run + [PollReturn(false)])
  {
    var s := After(run);
    InvHolds(run);
    e := match s.pc
      case Entering => Enter
      case Top => TestQuit
      case Polling => PollReturn(s.eventfd > 0)
      case Swapping => Swap
      case Handling(woken) =>
        if s.own.Pushed? then OwnCheck else if woken then HandleRead else StartCalling
      case Draining =>
        if s.own.Pushed? then OwnCheck else if s.own.Owing? then OwnWake
        else if s.batch != [] then RunNext else StopCalling
      case Exited => Enter;
    RunStep(run, e);
    if s.pc.Polling? {
      RunStep(run, PollReturn(false));
    }
  }

  /** later continues run by such steps. */
  predicate Continues(run: seq<Step>, later: seq<Step>)
  {
    run <= later && forall i :: |run| <= i < |later| ==> OfItself(later[i])
  }

  /** No such step is left to take. */
  ghost predicate Stuck(s: State)
  {
    forall e :: OfItself(e) ==> !Enabled(s, e)
  }

  /** How far the loop thread is from its next poll. */
  function Distance(pc: Pc): nat
  {
    match pc
    case Handling(woken) => if woken then 5 else 4
    case Swapping => 3
    case Draining => 2
    case Entering => 2
    case Top => 1
    case Polling => 0
    case Exited => 0
  }

  /** At most so many such steps are left: a round for every write that is made or owed, and the functors. */
  function Work(s: State): nat
  {
    7 * |s.owing|
    + (match s.own case Idle => 0 case Pushed => 8 case Owing => 7)
    + (if s.eventfd > 0 && s.pc != Handling(true) then 6 else 0)
    + Distance(s.pc) + |s.pending| + |s.batch|
  }

  /** m_quit is set, and something is pending that the batch at hand does not hold. */
  predicate LeftBehind(s: State)
  {
    s.quit && (s.pc.Draining? || s.pc.Top? || s.pc.Exited?) && s.pending != []
  }

  lemma StepOfItself(s: State, e: Step)
    requires Inv(s) && OfItself(e) && Enabled(s, e)
    ensures var s' := Next(s, e);
            && Inv(s') && s'.enqueued == s.enqueued
            && Work(s') < Work(s)
            && (LeftBehind(s') <==> LeftBehind(s))
            && (s'.quit && !s'.pc.Entering? <==> s.quit && !s.pc.Entering?)
  {
    StepKeepsInv(s, e);
  }

  lemma StuckWhere(s: State)
    requires Inv(s) && Stuck(s)
    ensures s.owing == {} && s.batch == [] && (s.pc.Exited? || (s.pc.Polling? && s.eventfd == 0))
    ensures s.pc.Exited? <==> s.quit && !s.pc.Entering?
    ensures s.executed == s.enqueued <==> !LeftBehind(s)
  {
    if t :| t in s.owing {
      assert Enabled(s, Wake(t));
    }
    assert !Enabled(s, Enter) && !Enabled(s, TestQuit) && !Enabled(s, PollReturn(true));
    assert !Enabled(s, HandleRead) && !Enabled(s, StartCalling) && !Enabled(s, Swap);
    assert !Enabled(s, OwnCheck) && !Enabled(s, OwnWake) && !Enabled(s, RunNext) && !Enabled(s, StopCalling);
    assert |s.executed + [] + s.pending| == |s.executed| + |s.pending|;
    assert s.executed + [] + [] == s.executed;
  }

  lemma {:induction false} ContinuationWork(run: seq<Step>, later: seq<Step>)
    requires Run(run) && Continues(run, later) && Run(later)
    ensures var s, s' := After(run), After(later);
            && Inv(s') && s'.enqueued == s.enqueued
            && |later| + Work(s') <= |run| + Work(s)
            && (LeftBehind(s') <==> LeftBehind(s))
            && (s'.quit && !s'.pc.Entering? <==> s.quit && !s.pc.Entering?)
    decreases |later|
  {
    if |later| == |run| {
      assert later == run;
      InvHolds(run);
    } else {
      assert Continues(run, Earlier(later));
      ContinuationWork(run, Earlier(later));
      StepOfItself(After(Earlier(later)), Latest(later));
    }
  }

  /**
   What the wakeups are for. From any point of any run let the writes already owed and the loop go
   on, in any order, with no timeout and no other event: that takes a bounded number of steps. When
   none is left, the loop is at poll, or over if it was quit; and everything that was queued has
   been executed, unless it was queued behind the last swap of a loop that was quit.
   */
  lemma WakeupsDeliver(run: seq<Step>, later: seq<Step>)
    requires Run(run) && Continues(run, later) && Run(later)
    ensures |later| <= |run| + Work(After(run))
    ensures Stuck(After(later)) ==>
              && (if QuitSinceEntry(run) && Entered(run) then After(later).pc.Exited? else After(later).pc.Polling?)
              && (After(later).executed == Queued(run) <==> !LeftBehind(After(run)))
  {
    ContinuationWork(run, later);
    QuitIff(run);
    EnqueuedIs(run);
    if Stuck(After(later)) {
      StuckWhere(After(later));
    }
  }

  /** And from any point on the way some continuation gets there. */
  lemma {:induction false} WakeupsSuffice(run: seq<Step>, from: seq<Step>) returns (later: seq<Step>)
    requires Run(run) && Continues(run, from) && Run(from)
    ensures Continues(run, later) && Run(later) && from <= later && Stuck(After(later))
    ensures !LeftBehind(After(run)) ==> After(later).executed == Queued(run)
    decreases Work(After(from))
  {
    ContinuationWork(run, from);
    if e :| OfItself(e) && Enabled(After(from), e) {
      StepOfItself(After(from), e);
      RunStep(from, e);
      later := WakeupsSuffice(run, from + [e]);
    } else {
      later := from;
      WakeupsDeliver(run, later);
    }
  }

  lemma StaysLeftBehind(s: State, e: Step)
    requires LeftBehind(s) && Enabled(s, e)
    ensures LeftBehind(Next(s, e)) && Next(s, e).swapped == s.swapped
  {
  }

  lemma {:induction false} SwappedForGood(run: seq<Step>, more: seq<Step>)
    requires Run(run) && Run(run + more) && LeftBehind(After(run))
    ensures LeftBehind(After(run + more)) && After(run + more).swapped == After(run).swapped
    decreases |more|
  {
    if more == [] {
      assert run + more == run;
    } else {
      RunSplit(run, more);
      SwappedForGood(run, Earlier(more));
      StaysLeftBehind(After(run + Earlier(more)), Latest(more));
    }
  }

  /** What was queued behind the last swap of a loop that was quit is never executed, whatever happens later. */
  lemma LeftBehindForGood(run: seq<Step>, more: seq<Step>)
    requires Run(run) && Run(run + more) && LeftBehind(After(run))
    ensures |After(run + more).executed| < |Queued(run)|
  {
    SwappedForGood(run, more);
    InvHolds(run);
    InvHolds(run + more);
    EnqueuedIs(run);
    var s := After(run);
    assert |s.executed + s.batch + s.pending| == |s.executed| + |s.batch| + |s.pending|;
  }

  lemma Then(run: seq<Step>, e: Step, s: State) returns (longer: seq<Step>)
    requires Run(run) && Enabled(After(run), e) && s == Next(After(run), e)
    ensures Run(longer) && After(longer) == s
  {
    RunStep(run, e);
    longer := run + [e];
  }

  /** The first batch, with nothing in it. */
  lemma FirstBatch() returns (run: seq<Step>)
    ensures Run(run) && After(run) == INITIAL.(pc := Draining, calling := true)
  {
    run := Then([], Enter, INITIAL.(pc := Top));
    run := Then(run, TestQuit, INITIAL.(pc := Polling));
    run := Then(run, PollReturn(false), INITIAL.(pc := Handling(false)));
    run := Then(run, StartCalling, INITIAL.(pc := Swapping, calling := true));
    run := Then(run, Swap, INITIAL.(pc := Draining, calling := true));
  }

  /** It can happen to any functor: it is queued while the first batch runs, and then the loop is quit. */
  lemma LeftBehindExample(t: Thread, u: Thread, f: Functor) returns (run: seq<Step>)
    requires t != u
    ensures Run(run) && LeftBehind(After(run)) && After(run).pending == [f]
  {
    run := FirstBatch();
    run := Then(run, Push(t, f), Next(After(run), Push(t, f)));
    run := Then(run, Quit(u), Next(After(run), Quit(u)));
  }
}
