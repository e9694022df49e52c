/** Sending on one connection, on its loop thread: direct write, buffered write, deferred shutdown. */
module TcpConnections {
  import opened Buffers
  import opened Logs

  datatype Phase = Disconnected | Connecting | Connected | Disconnecting

  datatype Conn = Conn(
    phase: Phase,
    writing: bool,        // the channel asks for writable events
    out: seq<byte>,       // the output buffer
    kernel: seq<byte>,    // what the kernel has taken so far
    closes: nat)          // how often the write half was shut down

  /** taken: how many bytes the kernel takes if a write is made. */
  datatype Event =
    | Established
    | Send(message: seq<byte>, taken: nat)
    | Writable(taken: nat)
    | Shutdown
    | Closed

  const INITIAL := Conn(Connecting, false, [], [], 0)

  /** The kernel takes no more than it is offered; a connection is established once. */
  predicate Enabled(c: Conn, e: Event)
  {
    match e
    case Established => c.phase == Connecting
    case Send(message, taken) => taken <= |message|
    case Writable(taken) => taken <= |c.out|
    case _ => true
  }

  function ShutIfIdle(c: Conn): Conn
  {
    if c.writing then c else c.(closes := c.closes + 1)
  }

  function Sent(c: Conn, message: seq<byte>, taken: nat): Conn
    requires taken <= |message|
  {
    var direct := !c.writing && c.out == [];
    var n := if direct then taken else 0;
    c.(kernel := c.kernel + message[..n],
       out := c.out + message[n..],
       writing := c.writing || n < |message|)
  }

  function Drained(c: Conn, taken: nat): Conn
    requires taken <= |c.out|
  {
    var d := c.(kernel := c.kernel + c.out[..taken], out := c.out[taken..]);
    if d.out != [] then d
    else if d.phase == Disconnecting then ShutIfIdle(d.(writing := false))
    else d.(writing := false)
  }

  function Next(c: Conn, e: Event): Conn
    requires Enabled(c, e)
  {
    match e
    case Established => c.(phase := Connected)
    case Send(message, taken) => if c.phase == Connected then Sent(c, message, taken) else c
    case Writable(taken) => if c.writing && taken > 0 then Drained(c, taken) else c
    case Shutdown => if c.phase == Connected then ShutIfIdle(c.(phase := Disconnecting)) else c
    case Closed => c.(phase := Disconnected, writing := false)
  }

  predicate Run(run: seq<Event>)
    decreases |run|, 0
  {
    run == [] || (Run(Earlier(run)) && Enabled(After(Earlier(run)), Latest(run)))
  }

  function After(run: seq<Event>): Conn
    requires Run(run)
    decreases |run|, 1
  {
    if run == [] then INITIAL else Next(After(Earlier(run)), Latest(run))
  }

  lemma RunStep(run: seq<Event>, e: Event)
    requires Run(run) && Enabled(After(run), e)
    ensures Run(run + [e]) && After(run + [e]) == Next(After(run), e)
  {
  }

  /** Read off the events: established, and since then neither shut down nor closed. */
  predicate Open(run: seq<Event>)
    decreases |run|
  {
    run != [] && (Latest(run).Established? || (!Latest(run).Shutdown? && !Latest(run).Closed? && Open(Earlier(run))))
  }

  /** Read off the events: shut down while open, and not closed since. */
  predicate ShuttingDown(run: seq<Event>)
    decreases |run|
  {
    run != [] && ((Latest(run).Shutdown? && Open(Earlier(run))) || (!Latest(run).Closed? && ShuttingDown(Earlier(run))))
  }

  /** Read off the events: closed. */
  predicate Gone(run: seq<Event>)
    decreases |run|
  {
    run != [] && (Latest(run).Closed? || Gone(Earlier(run)))
  }

  /** Read off the events: the messages accepted so far, one after the other. */
  function Accepted(run: seq<Event>): seq<byte>
    decreases |run|
  {
    if run == [] then []
    else Accepted(Earlier(run)) + if Latest(run).Send? && Open(Earlier(run)) then Latest(run).message else []
  }

  ghost predicate Inv(c: Conn)
  {
    && (c.phase != Disconnected ==> (c.writing <==> c.out != []))
    && (c.phase == Disconnected ==> !c.writing)
    && (c.phase == Connecting || c.phase == Connected ==> c.closes == 0)
    && (c.phase == Disconnecting ==> c.closes == if c.out == [] then 1 else 0)
    && c.closes <= 1
    && (c.closes == 1 ==> c.out == [])
  }

  lemma {:induction false} InvHolds(run: seq<Event>)
    requires Run(run)
    ensures Inv(After(run)) && (After(run).phase == Connected <==> Open(run))
    ensures After(run).phase == Disconnecting <==> ShuttingDown(run)
    ensures After(run).phase == Disconnected <==> Gone(run)
    decreases |run|
  {
    if run != [] {
      InvHolds(Earlier(run));
    }
  }

  /** Whatever the kernel took of each write: its bytes followed by the buffer are the accepted messages. */
  lemma {:induction false} StreamPreserved(run: seq<Event>)
    requires Run(run)
    ensures After(run).kernel + After(run).out == Accepted(run)
    decreases |run|
  {
    if run != [] {
      var c, e := After(Earlier(run)), Latest(run);
      StreamPreserved(Earlier(run));
      InvHolds(Earlier(run));
      match e {
        case Send(message, taken) =>
          assert message == message[..taken] + message[taken..];
          assert message[..0] == [] && message[0..] == message;
          assert c.kernel + (c.out + message) == c.kernel + c.out + message;
        case Writable(taken) =>
          assert c.out == c.out[..taken] + c.out[taken..];
        case _ =>
      }
    }
  }

  /** Until the connection is closed, writable events are asked for exactly while bytes wait. */
  lemma WriteInterest(run: seq<Event>)
    requires Run(run) && After(run).phase != Disconnected
    ensures After(run).writing <==> After(run).out != []
  {
  }

  /**
   Graceful shutdown: the write half is shut down at most once, only with everything accepted in
   the kernel's hands, and always when a disconnecting connection has nothing left to send.
   */
  lemma GracefulShutdown(run: seq<Event>)
    requires Run(run)
    ensures var c := After(run);
            && c.closes <= 1
            && (c.closes == 1 ==> c.kernel == Accepted(run))
            && (c.phase == Disconnecting && c.out == [] ==> c.closes == 1)
            && (c.closes == 1 ==> !Open(run))
  {
    InvHolds(run);
    StreamPreserved(run);
  }

  /**
   A shutdown of an open connection starts a graceful one: until it is closed, the connection asks
   for writable events exactly while the kernel lacks accepted bytes, and its write half is shut,
   once, exactly when it lacks none.
   */
  lemma ShutdownDrains(run: seq<Event>)
    requires Run(run) && ShuttingDown(run)
    ensures var c := After(run);
            && c.phase == Disconnecting
            && (c.writing <==> c.kernel != Accepted(run))
            && c.closes == if c.kernel == Accepted(run) then 1 else 0
  {
    InvHolds(run);
    StreamPreserved(run);
    var c := After(run);
    assert c.out == [] ==> c.kernel + c.out == c.kernel;
    assert c.out != [] ==> |c.kernel + c.out| > |c.kernel|;
  }

  /** The kernel has had all accepted bytes at some point of a shutdown. */
  predicate HasDrained(run: seq<Event>)
    requires Run(run)
    decreases |run|
  {
    run != [] && ((ShuttingDown(run) && After(run).kernel == Accepted(run)) || HasDrained(Earlier(run)))
  }

  /** The write half is shut exactly by that, also as seen after the connection was closed. */
  lemma {:induction false} ShutWhenDrained(run: seq<Event>)
    requires Run(run)
    ensures After(run).closes == if HasDrained(run) then 1 else 0
    decreases |run|
  {
    if run != [] {
      ShutWhenDrained(Earlier(run));
      InvHolds(Earlier(run));
      InvHolds(run);
      StreamPreserved(run);
      if ShuttingDown(run) {
        ShutdownDrains(run);
      }
    }
  }

  /** How many bytes the latest event moved into the kernel, read off the events. */
  function Moved(run: seq<Event>, waiting: bool): nat
    requires run != []
  {
    match Latest(run)
    case Writable(taken) => if Gone(Earlier(run)) then 0 else taken
    case Send(_, taken) => if Open(Earlier(run)) && !waiting then taken else 0
    case _ => 0
  }

  /** Every event moves exactly the bytes the kernel takes: all it is ready for, of the longest-waiting ones. */
  lemma KernelGrowth(run: seq<Event>)
    requires Run(run) && run != []
    ensures var c, c' := After(Earlier(run)), After(run);
            && |c'.kernel| == |c.kernel| + Moved(run, c.kernel != Accepted(Earlier(run)))
            && c.kernel <= c'.kernel <= Accepted(run)
  {
    var c, c' := After(Earlier(run)), After(run);
    InvHolds(Earlier(run));
    StreamPreserved(Earlier(run));
    StreamPreserved(run);
    assert c.out == [] ==> c.kernel + c.out == c.kernel;
    assert c.out != [] ==> |c.kernel + c.out| > |c.kernel|;
    assert c'.kernel <= c'.kernel + c'.out;
  }

  /** Nothing is written, and no second shutdown made, after the write half was shut down. */
  lemma {:induction false} QuietAfterShutdown(run: seq<Event>, more: seq<Event>)
    requires Run(run + more) && Run(run) && After(run).closes == 1
    ensures After(run + more).kernel == After(run).kernel && After(run + more).closes == 1
    decreases |more|
  {
    if more == [] {
      assert run + more == run;
    } else {
      assert Earlier(run + more) == run + Earlier(more);
      QuietAfterShutdown(run, Earlier(more));
      InvHolds(run + Earlier(more));
    }
  }

  /** What sending does, branch by branch: nwrote is what was written directly. */
  lemma SentInParts(c: Conn, message: seq<byte>, taken: nat, nwrote: nat)
    requires taken <= |message| && nwrote == if !c.writing && c.out == [] then taken else 0
    ensures nwrote < |message| ==>
              Sent(c, message, taken) == c.(kernel := c.kernel + message[..nwrote], out := c.out + message[nwrote..], writing := true)
    ensures nwrote == |message| ==> Sent(c, message, taken) == c.(kernel := c.kernel + message[..nwrote])
    ensures nwrote == 0 ==> c.kernel + message[..nwrote] == c.kernel
  {
    if nwrote == |message| {
      assert c.out + message[nwrote..] == c.out;
    }
  }

  class TcpConnection {
    var phase: Phase
    var writing: bool
    const output: Buffer
    ghost var kernel: seq<byte>
    ghost var closes: nat
    ghost var run: seq<Event>

    ghost function View(): Conn
      reads this, output, output.data
      requires output.Valid()
    {
      Conn(phase, writing, output.Contents(), kernel, closes)
    }

    /** The connection is always in the state its events lead to. */
    ghost predicate Valid()
      reads this, output, output.data
    {
      output.Valid() && Run(run) && View() == After(run)
    }

    constructor ()
      ensures Valid() && run == [] && fresh(output) && fresh(output.data)
    {
      phase, writing, kernel, closes, run := Connecting, false, [], 0, [];
      output := new Buffer();
    }

    ghost method Extend(e: Event)
      requires output.Valid() && Run(run) && Enabled(After(run), e) && View() == Next(After(run), e)
      modifies this`run
      ensures Valid() && run == old(run) + [e]
    {
      RunStep(run, e);
      run := run + [e];
    }

    method ConnectEstablished()
      requires Valid() && phase == Connecting
      modifies this
      ensures Valid() && run == old(run) + [Established]
    {
      phase := Connected;
      Extend(Established);
    }

    method Send(message: seq<byte>, taken: nat)
      requires Valid() && taken <= |message|
      modifies this, output, output.data
      ensures Valid() && run == old(run) + [Event.Send(message, taken)]
      ensures output.data == old(output.data) || fresh(output.data)
    {
      if phase == Connected {
        SendInLoop(message, taken);
      }
      Extend(Event.Send(message, taken));
    }

    method SendInLoop(message: seq<byte>, taken: nat)
      requires output.Valid() && taken <= |message|
      modifies this`writing, this`kernel, output, output.data
      ensures output.Valid() && (output.data == old(output.data) || fresh(output.data))
      ensures View() == if phase == Disconnected then old(View()) else Sent(old(View()), message, taken)
    {
      if phase == Disconnected {
        return;
      }
      var nwrote := 0;
      var remaining := |message|;
      ghost var c := View();
      if !writing && output.ReadableBytes() == 0 {
        nwrote := taken;
        kernel := kernel + message[..nwrote];
        remaining := |message| - nwrote;
      }
      SentInParts(c, message, taken, nwrote);
      if remaining > 0 {
        output.Append(message[nwrote..]);
        writing := true;
      }
    }

    method HandleWrite(taken: nat)
      requires Valid() && taken <= |output.Contents()|
      modifies this, output
      ensures Valid() && run == old(run) + [Writable(taken)] && output.data == old(output.data)
    {
      if writing {
        if taken > 0 {
          kernel := kernel + output.Contents()[..taken];
          output.Retrieve(taken);
          if output.ReadableBytes() == 0 {
            writing := false;
            if phase == Disconnecting {
              ShutdownInLoop();
            }
          }
        }
      }
      Extend(Writable(taken));
    }

    method Shutdown()
      requires Valid()
      modifies this
      ensures Valid() && run == old(run) + [Event.Shutdown]
    {
      if phase == Connected {
        phase := Disconnecting;
        ShutdownInLoop();
      }
      Extend(Event.Shutdown);
    }

    /** Puts the shutdown off while bytes wait: handleWrite makes up for it. */
    method ShutdownInLoop()
      requires output.Valid()
      modifies this`closes
      ensures output.Valid() && View() == ShutIfIdle(old(View()))
    {
      if !writing {
        closes := closes + 1;
      }
    }

    method HandleClose()
      requires Valid()
      modifies this
      ensures Valid() && run == old(run) + [Closed]
    {
      phase := Disconnected;
      writing := false;
      Extend(Closed);
    }
  }
}
