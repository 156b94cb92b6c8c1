/** The zero-window probe over whole runs: when its byte is the one its sequence number calls for, and
    runs in which it is not. */
module TcpProbe {
  import opened Words
  import opened TcpModel
  import opened TcpSender
  import opened TcpWire
  import opened TcpRun
  import opened TcpTimers
  import opened TcpScenario

  /** `tcp_tick` gets as far as sending a probe. */
  predicate Probing(c: Tcp, env: Env)
  {
    && (c.phase == Established || c.phase == Closing)
    && Wrap64(env.now - c.clk.started) <= 120_000_000
    && !(Oldest(c.snd.pending) >= 0 && Wrap64(env.now - c.clk.timer) >= c.clk.rto)
    && !(c.snd.ownFinAcked && c.rcv.fin && !(c.ackPending && !env.ackOk))
    && c.ctl.peerWindow == 0 && Wrap64(env.now - c.clk.probe) >= 1_000_000
  }

  /** A tick moves the probe clock exactly when it gets a probe onto the link, and then only that and
      the pending ACK change. */
  lemma {:induction false} ProbingTick(c: Tcp, env: Env)
    requires c.phase != Idle && PhaseOk(c)
    ensures TickStep(c, env).clk.probe != c.clk.probe <==> Probing(c, env) && env.sendOk
    ensures Probing(c, env) ==> TickStep(c, env) == c.(ackPending := c.ackPending && !env.ackOk,
      clk := if env.sendOk then c.clk.(probe := env.now) else c.clk)
  {
  }

  /** In every run, a probe carries the file's byte at its sequence number if and only if some data
      and not yet the FIN has been sent. */
  lemma {:induction false} ProbeInRun(c: Tcp, events: seq<Event>, env: Env)
    requires Initial(c) && Probing(Run(c, events), env)
    ensures var d := Run(c, events).snd; ProbeRight(d) <==> 0 < d.txOffset && !d.ownFin
  {
    InitialConn(c);
    RunConn(c, events);
    ProbeIn(Run(c, events), env);
  }

  lemma {:induction false} ProbeIn(r: Tcp, env: Env)
    requires ConnInv(r) && Probing(r, env)
    ensures ProbeRight(r.snd) <==> 0 < r.snd.txOffset && !r.snd.ownFin
  {
    EdgesBound(r.snd);
    ProbeByte(r.snd);
  }

  // ----- the two ways it goes wrong

  /** A run in which the peer opens with window zero: the probe is a zero byte at the SYN's own number. */
  lemma {:induction false} ProbeBeforeData() returns (c: Tcp, events: seq<Event>, env: Env)
    ensures Initial(c) && Probing(Run(c, events), env)
    ensures var d := Run(c, events).snd; !d.ownFin && Probe(d) == (d.isn, 0) && !ProbeRight(d)
  {
    c, events := Opened([7], 0, 0);
    env := Clocked(2_000_000);
    QuietProbes(Run(c, events));
  }

  lemma {:induction false} QuietProbes(r: Tcp)
    requires Quiet(r, [7], 0, 0, 0)
    ensures Probing(r, Clocked(2_000_000)) && !r.snd.ownFin && Probe(r.snd) == (r.snd.isn, 0) && !ProbeRight(r.snd)
  {
    AllFree(r.snd.pending);
  }

  // ----- one byte out and acknowledged, then the FIN, then a closed window

  /** The byte is out: slot 0 holds it. */
  ghost predicate Sending(r: Tcp)
  {
    && r.phase == Established && r.mss == TCP_MSS && r.localPort == 1 && r.peerPort == 2
    && r.rcv == Receiver(1, [], false)
    && r.ctl.peerWindow == 100 && r.ctl.windowSeq == 0 && r.ctl.windowAck == 1
    && r.clk.started == 0 && r.clk.probe == 0 && r.clk.nextSend <= 2_000_000 && ClockOk(r)
    && r.snd.isn == 0 && r.snd.una == 1 && r.snd.next == 2 && r.snd.tx == [7] && r.snd.txOffset == 1 && !r.snd.ownFin
    && Only(r.snd.pending, Segment(1, 0, 1, 3, ACK_PSH, 0, true))
  }

  lemma {:induction false} DataTick(r: Tcp)
    requires Quiet(r, [7], 0, 0, 100) && r.clk.nextSend == 0
    ensures Sending(Step(r, Tick(Clocked(3))))
  {
    SendTick(r, [7], 0, 0, 100, Clocked(3));
    StepClock(r, Tick(Clocked(3)));
    assert NextSegment(r.snd, TCP_MSS, 100) == Segment(1, 0, 1, 0, ACK_PSH, 0, true);
    assert PaceGap(1, 1) == 1_000_000;
  }

  lemma {:induction false} AckInput(r: Tcp)
    requires Sending(r)
    ensures Quiet(Step(r, Input(Reply(1, 2, ACK, 100), Clocked(4))), [7], 0, 1, 100)
    ensures Step(r, Input(Reply(1, 2, ACK, 100), Clocked(4))).clk.nextSend <= 2_000_000
  {
    var g, env := Reply(1, 2, ACK, 100), Clocked(4);
    StepClock(r, Input(g, env));
    assert Step(r, Input(g, env)) == Process(r, g, env);
    var c := r.(ctl := UpdateWindow(r.ctl, g));
    assert Process(r, g, env) == Acknowledge(c, 2, env);
    assert Acknowledge(c, 2, env).snd == Advance(c.snd, 2);
  }

  /** The FIN is out and the window is as given. */
  ghost predicate Finishing(r: Tcp, window: u16)
  {
    && r.phase == Closing && r.localPort == 1 && r.peerPort == 2
    && r.rcv == Receiver(1, [], false)
    && r.ctl.peerWindow == window && r.ctl.windowSeq == 1 && r.ctl.windowAck == 2
    && r.clk.started == 0 && r.clk.probe == 0 && r.clk.timer == 2_000_000 && ClockOk(r)
    && r.snd.isn == 0 && r.snd.una == 2 && r.snd.next == 3 && r.snd.tx == [7] && r.snd.txOffset == 1 && r.snd.ownFin
    && Only(r.snd.pending, Segment(2, 1, 0, 2_000_000, ACK_FIN, 0, true))
  }

  lemma {:induction false} FinTick(r: Tcp)
    requires Quiet(r, [7], 0, 1, 100) && r.clk.nextSend <= 2_000_000
    ensures Finishing(Step(r, Tick(Clocked(2_000_000))), 100)
  {
    SendTick(r, [7], 0, 1, 100, Clocked(2_000_000));
    StepClock(r, Tick(Clocked(2_000_000)));
    AllFree(r.snd.pending);
    assert NextSegment(r.snd, TCP_MSS, 100) == Segment(2, 1, 0, 0, ACK_FIN, 0, true);
  }

  lemma {:induction false} CloseWindow(r: Tcp)
    requires Finishing(r, 100)
    ensures Finishing(Step(r, Input(Reply(1, 2, ACK, 0), Clocked(2_000_000))), 0)
  {
    var g, env := Reply(1, 2, ACK, 0), Clocked(2_000_000);
    assert Step(r, Input(g, env)) == Process(r, g, env) == r.(ctl := UpdateWindow(r.ctl, g));
  }

  lemma {:induction false} FinishingProbes(r: Tcp)
    requires Finishing(r, 0)
    ensures Probing(r, Clocked(2_000_001)) && r.snd.ownFin && 0 < r.snd.txOffset
    ensures Off(r.snd.isn, Probe(r.snd).0) == 1 + |r.snd.tx| && !ProbeRight(r.snd)
  {
    OnlyOldest(r.snd.pending, r.snd.pending[0]);
  }

  /** A run in which the peer closes its window after the FIN: the probe is a data byte at the FIN's
      own number. */
  lemma {:induction false} ProbeAfterFin() returns (c: Tcp, events: seq<Event>, env: Env)
    ensures Initial(c) && Probing(Run(c, events), env)
    ensures var d := Run(c, events).snd;
      && d.ownFin && 0 < d.txOffset && Off(d.isn, Probe(d).0) == 1 + |d.tx| && !ProbeRight(d)
  {
    c, events := Opened([7], 0, 100);
    DataTick(Run(c, events));
    events := Then(c, events, Tick(Clocked(3)));
    AckInput(Run(c, events));
    events := Then(c, events, Input(Reply(1, 2, ACK, 100), Clocked(4)));
    FinTick(Run(c, events));
    events := Then(c, events, Tick(Clocked(2_000_000)));
    CloseWindow(Run(c, events));
    events := Then(c, events, Input(Reply(1, 2, ACK, 0), Clocked(2_000_000)));
    env := Clocked(2_000_001);
    FinishingProbes(Run(c, events));
  }
}
