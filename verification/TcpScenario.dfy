/** Concrete runs: the handshake of a transfer, and states to go on from. */
module TcpScenario {
  import opened Words
  import opened TcpModel
  import opened TcpSender
  import opened TcpTimers

  lemma {:induction false} RunPush(c: Tcp, events: seq<Event>, e: Event)
    ensures Run(c, events + [e]) == Step(Run(c, events), e)
  {
    assert (events + [e])[..|events|] == events;
  }

  function Clocked(now: u64): Env { Env(now, true, true, 10, 1) }

  /** A segment of the peer at port 2 for the connection at port 1. */
  function Reply(sequence: u32, acknowledgement: u32, flags: u8, window: u16): Incoming
  {
    Incoming(2, 1, sequence, acknowledgement, flags, window, [], [])
  }

  const SYN_ACK: u8 := 18
  const ACK: u8 := 16

  /** A transfer of `data` begun at time `t`. */
  function Begin(data: seq<u8>, t: u64): Tcp { Start(1, 2, 0, data, Clocked(t)) }

  lemma {:induction false} AllFree(p: seq<Segment>)
    requires forall i :: 0 <= i < |p| ==> !p[i].used
    ensures Oldest(p) == -1 && Inflight(p) == 0 && FreeSlot(p, 0) == 0
  {
    OldestNone(p, 0);
    if p != [] { AllFree(p[..|p| - 1]); }
  }

  /** The connection after its SYN went out at once. */
  function SynOut(data: seq<u8>, t: u64): Tcp
  {
    var c := Begin(data, t);
    if |c.snd.pending| == 0 then c
    else c.(snd := Extended(c.snd, SynSegment(c.snd), 0, t), clk := c.clk.(timer := t))
  }

  lemma {:induction false} SynTick(data: seq<u8>, t: u64)
    requires |data| <= TCP_BUFFER
    ensures Step(Begin(data, t), Tick(Clocked(t))) == SynOut(data, t)
  {
    AllFree(Begin(data, t).snd.pending);
  }

  lemma {:induction false} SynAckInput(s: Tcp, window: u16, env: Env)
    requires s.phase == SynSent && s.localPort == 1 && s.peerPort == 2 && s.snd.isn == 0 && s.snd.next == 1
    requires |s.snd.pending| > 0
    ensures Step(s, Input(Reply(0, 1, SYN_ACK, window), env)) == Establish(s, Reply(0, 1, SYN_ACK, window), TCP_MSS, env)
  {
    assert ParseMss([], 0, TCP_MSS) == Some(TCP_MSS);
  }

  /** Established at time `t`, nothing pending, the first `sent` bytes sent and acknowledged. */
  ghost predicate Quiet(r: Tcp, data: seq<u8>, t: u64, sent: nat, window: u16)
  {
    && r.phase == Established && r.mss == TCP_MSS && r.localPort == 1 && r.peerPort == 2 && sent <= |data| <= TCP_BUFFER
    && r.rcv == Receiver(1, [], false)
    && r.ctl.peerWindow == window && r.ctl.windowSeq == sent && r.ctl.windowAck == 1 + sent && r.ctl.cwnd == 10
    && r.ctl.rate == 1 && r.clk.started == t && r.clk.probe == 0 && ClockOk(r)
    && r.snd.isn == 0 && r.snd.una == r.snd.next == 1 + sent && r.snd.tx == data && r.snd.txOffset == sent
    && !r.snd.ownFin && |r.snd.pending| == TCP_SLOTS && forall i :: 0 <= i < TCP_SLOTS ==> !r.snd.pending[i].used
  }

  lemma {:induction false} EstablishQuiet(data: seq<u8>, t: u64, window: u16)
    requires |data| <= TCP_BUFFER
    ensures |SynOut(data, t).snd.pending| > 0
    ensures var r := Establish(SynOut(data, t), Reply(0, 1, SYN_ACK, window), TCP_MSS, Clocked(t));
      Quiet(r, data, t, 0, window) && r.clk.nextSend == 0 && forall k :: 0 <= k < |r.snd.wire| ==> r.snd.wire[k].payload == []
  {
  }

  /** The handshake, the peer advertising `window`. */
  lemma {:induction false} Opened(data: seq<u8>, t: u64, window: u16) returns (c: Tcp, events: seq<Event>)
    requires |data| <= TCP_BUFFER
    ensures Initial(c) && Quiet(Run(c, events), data, t, 0, window) && Run(c, events).clk.nextSend == 0
    ensures c.ctl.rate == 1 && forall i :: 0 <= i < |events| ==> events[i].env == Clocked(t)
    ensures forall i :: 0 <= i < |events| && events[i].Input? ==> events[i].segment == Reply(0, 1, SYN_ACK, window)
    ensures forall k :: 0 <= k < |Run(c, events).snd.wire| ==> Run(c, events).snd.wire[k].payload == []
  {
    c := Begin(data, t);
    assert Run(c, []) == c;
    SynTick(data, t);
    events := Then(c, [], Tick(Clocked(t)));
    EstablishQuiet(data, t, window);
    SynAckInput(Run(c, events), window, Clocked(t));
    events := Then(c, events, Input(Reply(0, 1, SYN_ACK, window), Clocked(t)));
  }

  /** A tick on a quiet connection sends the next segment from slot 0. */
  lemma {:induction false} SendTick(r: Tcp, data: seq<u8>, t: u64, sent: nat, window: u16, env: Env)
    requires Quiet(r, data, t, sent, window) && window > 0 && env.sendOk && r.clk.nextSend <= env.now
    requires Wrap64(env.now - t) <= 120_000_000
    ensures Step(r, Tick(env)) ==
      SendNew(r.(ackPending := r.ackPending && !env.ackOk), NextSegment(r.snd, TCP_MSS, window), 0, env)
  {
    var c := r.(ackPending := r.ackPending && !env.ackOk);
    SendQuiet(c, data, t, sent, window, env);
    AllFree(c.snd.pending);
    assert TickTimed(c, env) == TickSend(c, env);
  }

  lemma {:induction false} SendQuiet(c: Tcp, data: seq<u8>, t: u64, sent: nat, window: u16, env: Env)
    requires Quiet(c, data, t, sent, window) && window > 0 && env.sendOk && c.clk.nextSend <= env.now
    ensures TickSend(c, env) == SendNew(c, NextSegment(c.snd, TCP_MSS, window), 0, env)
  {
    AllFree(c.snd.pending);
    assert FreeSlot(c.snd.pending, 0) == 0;
    assert MaySend(c, env);
  }

  lemma {:induction false} Then(c: Tcp, events: seq<Event>, e: Event) returns (more: seq<Event>)
    ensures more == events + [e] && Run(c, more) == Step(Run(c, events), e)
  {
    RunPush(c, events, e);
    more := events + [e];
  }

  /** Slot 0 alone is in use, with `s`. */
  ghost predicate Only(p: seq<Segment>, s: Segment)
  {
    |p| == TCP_SLOTS && s.used && p[0] == s && forall i :: 1 <= i < TCP_SLOTS ==> !p[i].used
  }

  lemma {:induction false} OnlyOldest(p: seq<Segment>, s: Segment)
    requires Only(p, s)
    ensures Oldest(p) == 0
  {
    OldestStays(p, 1);
  }

  lemma {:induction false} OldestStays(p: seq<Segment>, i: nat)
    requires 1 <= i <= |p| && forall k :: 1 <= k < |p| ==> !p[k].used
    ensures OldestFrom(p, i, 0) == 0
    decreases |p| - i
  {
    if i < |p| { OldestStays(p, i + 1); }
  }
}
