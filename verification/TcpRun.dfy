/** The whole connection: what holds after every run of ticks and arriving segments, whatever the
    network, the link and the congestion controller do. */
module TcpRun {
  import opened Words
  import opened TcpModel
  import opened TcpSender
  import opened TcpSteps
  import opened TcpWire

  predicate PhaseOk(c: Tcp)
  {
    && c.mss <= TCP_MSS
    && (match c.phase
        case Idle => false
        case SynSent => c.snd.una == c.snd.isn
        case Established => c.snd.una != c.snd.isn && !c.snd.ownFin && c.mss > 0
        case Closing => c.snd.una != c.snd.isn && c.snd.ownFin && c.mss > 0
        case Done => c.snd.una != c.snd.isn && c.snd.ownFinAcked && c.rcv.fin
        case Failed => true)
  }

  ghost predicate ConnInv(c: Tcp)
  {
    SenderInv(c.snd) && WireInv(c.snd) && PhaseOk(c)
  }

  lemma {:induction false} EdgesBound(d: Sender)
    requires Edges(d)
    ensures Off(d.isn, d.una) <= Off(d.isn, d.next) <= TCP_BUFFER + 2
    ensures d.una == d.isn <==> Off(d.isn, d.una) == 0
  {
    if Off(d.isn, d.una) == 0 { OffInjective(d.isn, d.una, d.isn); }
  }

  /** The tests of `ack` select exactly the acknowledgements between the two edges. */
  lemma {:induction false} AckOff(d: Sender, a: u32)
    requires Edges(d) && !Before(a, d.una) && !Before(d.next, a)
    ensures Off(d.isn, d.una) <= Off(d.isn, a) <= Off(d.isn, d.next)
  {
    EdgesBound(d);
    BeforeIsOrder(d.isn, d.una, d.next);
    AckInterval(d.una, d.next, a);
    OffAdd(d.isn, d.una, Wrap32(a - d.una));
    AckEnd(d.una, a);
  }

  lemma {:induction false} LossConn(c: Tcp, env: Env, timeout: bool)
    requires ConnInv(c)
    ensures ConnInv(Loss(c, env, timeout))
    ensures Loss(c, env, timeout).rcv == c.rcv
  {
    var d := c.snd;
    var i := Oldest(d.pending);
    EdgesBound(d);
    OldestIsUna(d.isn, d.pending, d.una, d.next);
    if i >= 0 && d.pending[i].retries < 8 {
      ResentKeeps(d, i, env.now);
      ResentWire(d, i, env.now);
    }
  }

  lemma {:induction false} AdvanceConn(d: Sender, a: u32)
    requires SenderInv(d) && WireInv(d) && d.una != d.isn && a != d.una
    requires !Before(a, d.una) && !Before(d.next, a)
    ensures SenderInv(Advance(d, a)) && WireInv(Advance(d, a)) && Advance(d, a).una != d.isn
  {
    AdvanceRange(d, a);
    AdvanceKeeps(d, a);
    AdvanceWire(d, a);
  }

  lemma {:induction false} AdvanceRange(d: Sender, a: u32)
    requires Edges(d) && d.una != d.isn && a != d.una && !Before(a, d.una) && !Before(d.next, a)
    ensures 0 < Off(d.isn, d.una) < Off(d.isn, a) <= Off(d.isn, d.next) && a != d.isn
  {
    AckOff(d, a);
    EdgesBound(d);
    if Off(d.isn, a) == Off(d.isn, d.una) { OffInjective(d.isn, a, d.una); }
  }

  lemma {:induction false} AcknowledgeConn(c: Tcp, a: u32, env: Env)
    requires ConnInv(c) && c.snd.una != c.snd.isn
    ensures ConnInv(Acknowledge(c, a, env))
    ensures Acknowledge(c, a, env).rcv == c.rcv
  {
    var r := Acknowledge(c, a, env);
    if Before(a, c.snd.una) || Before(c.snd.next, a) {
      assert r == c;
    } else if a == c.snd.una {
      var c1 := c.(ctl := c.ctl.(dupacks := Wrap32(c.ctl.dupacks + 1)));
      LossConn(c1, env, false);
      assert r in {c, c1, Loss(c1, env, false)};
    } else {
      AdvanceConn(c.snd, a);
      assert r.snd == Advance(c.snd, a) && r.phase == c.phase;
    }
  }

  lemma {:induction false} ReceiveConn(c: Tcp, g: Incoming)
    requires ConnInv(c)
    ensures ConnInv(Receive(c, g))
  {
  }

  lemma {:induction false} ProcessConn(c: Tcp, g: Incoming, env: Env)
    requires ConnInv(c) && c.snd.una != c.snd.isn
    ensures ConnInv(Process(c, g, env))
  {
    var c1 := c.(ctl := UpdateWindow(c.ctl, g));
    AcknowledgeConn(c1, g.acknowledgement, env);
    ReceiveConn(c1, g);
    ReceiveConn(Acknowledge(c1, g.acknowledgement, env), g);
  }

  lemma {:induction false} ParseMssRange(o: seq<u8>, i: nat, mss: u16)
    requires i <= |o| && 0 < mss <= TCP_MSS
    ensures ParseMss(o, i, mss).Some? ==> 0 < ParseMss(o, i, mss).value <= TCP_MSS
    decreases |o| - i
  {
    if i == |o| || o[i] == 0 {
    } else if o[i] == 1 {
      ParseMssRange(o, i + 1, mss);
    } else if i + 1 >= |o| || o[i + 1] < 2 || i + o[i + 1] as int > |o| {
    } else if o[i] != 2 {
      ParseMssRange(o, i + o[i + 1] as int, mss);
    } else if o[i + 1] == 4 && !(o[i + 2] == 0 && o[i + 3] == 0) {
      ParseMssRange(o, i + 4, Min(mss, o[i + 2] as int * 256 + o[i + 3] as int));
    }
  }

  /** A segment in SYN-SENT is ignored, refuses the connection, or opens it. */
  lemma {:induction false} HandshakeCases(c: Tcp, g: Incoming, env: Env)
    ensures var d, r := c.snd, Handshake(c, g, env);
      || r == c || r == Abort(c)
      || ( && |d.pending| > 0 && d.next == Wrap32(d.isn + 1) && r.snd == Opened(d, d.next)
           && r.phase == Established && 0 < r.mss <= TCP_MSS)
  {
    ParseMssRange(g.options, 0, TCP_MSS);
  }

  lemma {:induction false} HandshakeConn(c: Tcp, g: Incoming, env: Env)
    requires ConnInv(c) && c.phase == SynSent
    ensures ConnInv(Handshake(c, g, env))
  {
    HandshakeCases(c, g, env);
    var d, r := c.snd, Handshake(c, g, env);
    if r != c && r != Abort(c) { OpenedConn(d); }
  }

  lemma {:induction false} OpenedConn(d: Sender)
    requires SenderInv(d) && WireInv(d) && d.una == d.isn && d.next == Wrap32(d.isn + 1) && |d.pending| > 0
    ensures var e := Opened(d, d.next);
      SenderInv(e) && WireInv(e) && e.una != e.isn && !e.ownFin
  {
    HandshakeKeeps(d, d.next);
    HandshakeWire(d, d.next);
  }

  lemma {:induction false} HandshakeWire(d: Sender, a: u32)
    requires WireInv(d) && |d.pending| > 0
    ensures WireInv(Opened(d, a))
  {
    var q := d.pending[0 := d.pending[0].(used := false)];
    forall i, x | 0 <= i < |q| && Covers(d.isn, q[i], x)
      ensures Times(d.isn, d.wire, x) == q[i].retries + 1
    {
      assert i != 0 && Covers(d.isn, d.pending[i], x);
    }
  }

  lemma {:induction false} InputConn(c: Tcp, g: Incoming, env: Env)
    requires ConnInv(c)
    ensures ConnInv(InputStep(c, g, env))
  {
    var r := InputStep(c, g, env);
    if c.phase == SynSent {
      HandshakeConn(c, g, env);
    } else if r.snd == c.snd && r.mss == c.mss && r.rcv == c.rcv && (r.phase == c.phase || r.phase == Failed) {
    } else {
      assert r == Process(c, g, env);
      ProcessConn(c, g, env);
    }
  }

  lemma {:induction false} InflightZero(p: seq<Segment>)
    requires Inflight(p) == 0
    ensures forall i :: 0 <= i < |p| ==> !p[i].used
  {
    if p != [] { InflightZero(p[..|p| - 1]); }
  }

  lemma {:induction false} NothingPending(d: Sender)
    requires SenderInv(d) && Inflight(d.pending) == 0
    ensures d.una == d.next
  {
    InflightZero(d.pending);
    EdgesBound(d);
    if d.una != d.next { var k := FirstSlot(d.isn, d.pending, d.una, d.next); }
  }

  lemma {:induction false} SendConn(d: Sender, s: Segment, k: nat, now: u64)
    requires SenderInv(d) && WireInv(d) && Sendable(d, s) && k < |d.pending| && !d.pending[k].used
    requires if d.next == d.isn then k == 0 else d.una != d.isn
    ensures SenderInv(Extended(d, s, k, now)) && WireInv(Extended(d, s, k, now))
  {
    ExtendedKeeps(d, s, k, now);
    ExtendedWire(d, s, k, now);
  }

  lemma {:induction false} NextSegmentSendable(d: Sender, mss: u16, room: nat)
    requires SenderInv(d) && d.una != d.isn && !d.ownFin && 0 < mss <= TCP_MSS && 0 < room
    ensures var s := NextSegment(d, mss, room);
      (s.length == 0 && Inflight(d.pending) > 0) || Sendable(d, s)
    ensures NextSegment(d, mss, room).length == 0 ==> d.txOffset == |d.tx|
    ensures d.next != d.isn
  {
    EdgesBound(d);
    if Inflight(d.pending) == 0 { NothingPending(d); }
  }

  /** Either `TickSend` does nothing or it sends one sendable segment from a free slot. */
  lemma {:induction false} TickSendCases(c: Tcp, env: Env) returns (s: Segment, k: nat)
    requires SenderInv(c.snd) && PhaseOk(c) && (c.phase == Established || c.phase == Closing)
    requires TickSend(c, env) != c
    ensures k < |c.snd.pending| && !c.snd.pending[k].used && Sendable(c.snd, s)
    ensures c.snd.next != c.snd.isn && c.snd.una != c.snd.isn
    ensures TickSend(c, env).snd == Extended(c.snd, s, k, env.now)
    ensures TickSend(c, env).phase == if Fin(s.flags) then Closing else c.phase
  {
    var d := c.snd;
    var room := c.ctl.peerWindow - Wrap32(d.next - d.una);
    s, k := NextSegment(d, c.mss, room), FreeSlot(d.pending, 0);
    NextSegmentSendable(d, c.mss, room);
  }

  lemma {:induction false} TickSendConn(c: Tcp, env: Env)
    requires ConnInv(c) && (c.phase == Established || c.phase == Closing)
    ensures ConnInv(TickSend(c, env))
  {
    if TickSend(c, env) != c {
      var s, k := TickSendCases(c, env);
      SendConn(c.snd, s, k, env.now);
    }
  }

  lemma {:induction false} TickSynConn(c: Tcp, env: Env)
    requires ConnInv(c) && c.phase == SynSent
    ensures ConnInv(TickSyn(c, env))
  {
    var d := c.snd;
    if d.next == d.isn {
      assert Inside(d.isn, d.pending[0], 0, 0);
      SendConn(d, SynSegment(d), 0, env.now);
    }
  }

  lemma {:induction false} TickConn(c: Tcp, env: Env)
    requires ConnInv(c)
    ensures ConnInv(TickStep(c, env))
  {
    var c1 := c.(ackPending := c.ackPending && !env.ackOk);
    if c.phase != Failed { TickTimedConn(c1, env); }
  }

  lemma {:induction false} TickTimedConn(c: Tcp, env: Env)
    requires ConnInv(c) && c.phase != Failed
    ensures ConnInv(TickTimed(c, env))
  {
    LossConn(c, env, true);
    if c.phase == SynSent { TickSynConn(c, env); }
    else if c.phase != Done { TickSendConn(c, env); }
  }

  lemma {:induction false} StepConn(c: Tcp, e: Event)
    requires ConnInv(c)
    ensures ConnInv(Step(c, e))
  {
    match e
    case Tick(env) => TickConn(c, env);
    case Input(g, env) => InputConn(c, g, env);
  }

  lemma {:induction false} InitialConn(c: Tcp)
    requires Initial(c)
    ensures ConnInv(c)
  {
    var d := c.snd;
    assert d.wire == [] && d.una == d.next == d.isn && |d.pending| == TCP_SLOTS;
    assert forall i :: 0 <= i < |d.pending| ==> !d.pending[i].used;
  }

  /** Every reachable state satisfies the connection invariant. */
  lemma {:induction false} RunConn(c: Tcp, events: seq<Event>)
    requires ConnInv(c)
    ensures ConnInv(Run(c, events))
  {
    if events != [] {
      RunConn(c, events[..|events| - 1]);
      StepConn(Run(c, events[..|events| - 1]), events[|events| - 1]);
    }
  }

  /** Tiling: in every state reachable from `tcp_start`, across wrap-around and whatever arrives,
      the used slots cut [una, next) exactly, each data slot sits at isn + 1 + offset, and
      acknowledged, pending and unsent bytes add up to the transfer. */
  lemma {:induction false} Tiling(c: Tcp, events: seq<Event>)
    requires Initial(c)
    ensures var d := Run(c, events).snd;
      && Tiles(d.isn, d.pending, Off(d.isn, d.una), Off(d.isn, d.next))
      && (forall i :: 0 <= i < |d.pending| ==> SlotOk(d, d.pending[i]))
      && d.delivered + PendingBytes(d.pending) + (|d.tx| - d.txOffset) == |d.tx|
  {
    InitialConn(c);
    RunConn(c, events);
    Conservation(Run(c, events).snd);
  }

  /** Completion: DONE is reached only with every byte and the FIN acknowledged, nothing pending
      and the peer's FIN consumed. */
  lemma {:induction false} Completion(c: Tcp, events: seq<Event>)
    requires Initial(c) && Run(c, events).phase == Done
    ensures var e := Run(c, events);
      && e.snd.delivered == e.snd.txOffset == |e.snd.tx| && e.snd.una == e.snd.next
      && e.snd.ownFinAcked && e.rcv.fin
      && (forall i :: 0 <= i < |e.snd.pending| ==> !e.snd.pending[i].used)
  {
    InitialConn(c);
    RunConn(c, events);
    FinishedSender(Run(c, events).snd);
  }

  lemma {:induction false} FinishedSender(d: Sender)
    requires SenderInv(d) && d.ownFinAcked
    ensures d.delivered == d.txOffset == |d.tx| && d.una == d.next
    ensures forall i :: 0 <= i < |d.pending| ==> !d.pending[i].used
  {
    OffInjective(d.isn, d.una, d.next);
    EdgesBound(d);
    OldestIsUna(d.isn, d.pending, d.una, d.next);
  }

  /** Fidelity: every transmission of every run carries the file's bytes at its own sequence number
      (or is the SYN or the FIN), and no position of the stream goes out more than nine times. */
  lemma {:induction false} Fidelity(c: Tcp, events: seq<Event>, j: nat, x: int)
    requires Initial(c)
    ensures var d := Run(c, events).snd;
      && (j < |d.wire| ==> SentOk(d.isn, d.tx, d.wire[j]))
      && Times(d.isn, d.wire, x) <= 9
  {
    InitialConn(c);
    RunConn(c, events);
  }
}
