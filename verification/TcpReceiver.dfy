/** The incoming half: whatever the network loses, repeats, reorders or re-cuts, the stored bytes
    are a growing prefix of the one stream the peer sends, complete when its FIN is consumed. */
module TcpReceiver {
  import opened Words
  import opened TcpModel

  /** Segment `g` carries the text at offset `o` of the peer's stream, with a FIN only at its end. */
  predicate At(g: Incoming, irs: u32, stream: seq<u8>, o: nat)
  {
    && o + |g.payload| <= |stream|
    && g.sequence == Wrap32(irs + 1 + o)
    && g.payload == stream[o..o + |g.payload|]
    && (Fin(g.flags) ==> o + |g.payload| == |stream|)
  }

  /** Any segment the peer may have sent: a reset, its SYN, or some piece of its stream. */
  ghost predicate FromPeer(g: Incoming, irs: u32, stream: seq<u8>)
  {
    || Rst(g.flags)
    || (Syn(g.flags) && g.sequence == irs)
    || (!Syn(g.flags) && exists o: nat :: At(g, irs, stream, o))
  }

  predicate Stored(r: Receiver, stream: seq<u8>)
  {
    r.data <= stream && |r.data| <= TCP_BUFFER && (r.fin ==> r.data == stream)
  }

  /** The left edge of the receive window follows the stored bytes and the FIN. */
  predicate Aligned(r: Receiver, irs: u32)
  {
    r.next == Wrap32(irs + 1 + |r.data| + if r.fin then 1 else 0)
  }

  /** Where an in-order segment starts in the stream: `Trim` bytes before the first missing one. */
  lemma {:induction false} InOrderOffset(r: Receiver, g: Incoming, irs: u32, stream: seq<u8>, o: nat)
    requires Stored(r, stream) && Aligned(r, irs) && At(g, irs, stream, o)
    requires InOrder(r, g) && |stream| < 0x1_0000_0000
    ensures o + Trim(r, g) == |r.data|
  {
    var k := Trim(r, g);
    WrapShift(irs + 1 + o, k);
    WrapEqual(irs + 1 + o + k, irs + 1 + |r.data|);
  }

  lemma {:induction false} WrapShift(x: int, k: int)
    ensures Wrap32(Wrap32(x) + k) == Wrap32(x + k)
  {
  }

  lemma {:induction false} WrapEqual(x: int, y: int)
    requires Wrap32(x) == Wrap32(y) && -0x1_0000_0000 < x - y < 0x1_0000_0000
    ensures x == y
  {
  }

  /** Storing an in-order segment extends the prefix by the stream's own next bytes. */
  lemma {:induction false} StoreKeeps(r: Receiver, g: Incoming, irs: u32, stream: seq<u8>)
    requires Stored(r, stream) && Aligned(r, irs) && |stream| < 0x1_0000_0000
    requires exists o: nat :: At(g, irs, stream, o)
    requires InOrder(r, g) && |g.payload| - Trim(r, g) <= TCP_BUFFER - |r.data|
    ensures Stored(Store(r, g), stream) && Aligned(Store(r, g), irs)
    ensures r.data <= Store(r, g).data
  {
    var o: nat :| At(g, irs, stream, o);
    InOrderOffset(r, g, irs, stream, o);
    var k := Trim(r, g);
    var text := g.payload[k..];
    TextFollows(r.data, g.payload, stream, o, k);
    WrapShift(irs + 1 + |r.data|, |text| + if Fin(g.flags) then 1 else 0);
  }

  lemma {:induction false} TextFollows(data: seq<u8>, payload: seq<u8>, stream: seq<u8>, o: nat, k: nat)
    requires k <= |payload| && o + |payload| <= |stream| && data <= stream && o + k == |data|
    requires payload == stream[o..o + |payload|]
    ensures data + payload[k..] == stream[..o + |payload|]
  {
    assert data == stream[..|data|];
    assert payload[k..] == stream[o + k..o + |payload|];
  }

  /** No segment of this stream can make the receiver store anything but the stream's prefix. */
  ghost predicate PrefixSafe(stream: seq<u8>)
  {
    forall irs: u32, r, g :: StoresRight(irs, r, g, stream)
  }

  ghost predicate StoresRight(irs: u32, r: Receiver, g: Incoming, stream: seq<u8>)
  {
    Stored(r, stream) && Aligned(r, irs) && (exists o: nat :: At(g, irs, stream, o)) &&
    Acceptable(r, g) && InOrder(r, g) && |g.payload| - Trim(r, g) <= TCP_BUFFER - |r.data| ==>
      Stored(Store(r, g), stream)
  }

  lemma {:induction false} ShortStreamsSafe(stream: seq<u8>)
    requires |stream| < 0x1_0000_0000
    ensures PrefixSafe(stream)
  {
    forall irs: u32, r, g ensures StoresRight(irs, r, g, stream) {
      if Stored(r, stream) && Aligned(r, irs) && (exists o: nat :: At(g, irs, stream, o)) &&
         InOrder(r, g) && |g.payload| - Trim(r, g) <= TCP_BUFFER - |r.data| {
        StoreKeeps(r, g, irs, stream);
      }
    }
  }

  /** The handshake is over and the connection has not failed. */
  predicate Open(p: Phase) { p == Established || p == Closing || p == Done }

  /** The receive edge of a connection, in phases where it is defined. */
  ghost predicate RecvInv(c: Tcp, irs: u32, stream: seq<u8>)
  {
    && Stored(c.rcv, stream)
    && (c.phase == SynSent ==> c.rcv.data == [] && !c.rcv.fin)
    && (Open(c.phase) ==> Aligned(c.rcv, irs))
  }

  /** Sending, timers and acknowledgements leave the receive side alone and never re-open it. */
  predicate SendSideOnly(c: Tcp, d: Tcp)
  {
    d.rcv == c.rcv && (d.phase == c.phase || d.phase == Failed ||
                       (c.phase != SynSent && c.phase != Failed && d.phase != SynSent))
  }

  lemma {:induction false} LossSendSide(c: Tcp, env: Env, timeout: bool)
    ensures SendSideOnly(c, Loss(c, env, timeout)) && Loss(c, env, timeout).phase in {c.phase, Failed}
  {
  }

  lemma {:induction false} AcknowledgeSendSide(c: Tcp, a: u32, env: Env)
    ensures SendSideOnly(c, Acknowledge(c, a, env)) && Acknowledge(c, a, env).phase in {c.phase, Failed}
  {
    LossSendSide(c.(ctl := c.ctl.(dupacks := Wrap32(c.ctl.dupacks + 1))), env, false);
  }

  lemma {:induction false} TickSendSide(c: Tcp, env: Env)
    requires c.phase != Idle
    ensures SendSideOnly(c, TickStep(c, env))
  {
    LossSendSide(c.(ackPending := c.ackPending && !env.ackOk), env, true);
  }

  /** A peer segment that reached `Receive` with the edge aligned keeps everything. */
  lemma {:induction false} ReceiveKeeps(c: Tcp, g: Incoming, irs: u32, stream: seq<u8>)
    requires RecvInv(c, irs, stream) && c.phase != SynSent && |stream| < 0x1_0000_0000
    requires exists o: nat :: At(g, irs, stream, o)
    requires Aligned(c.rcv, irs)
    ensures RecvInv(Receive(c, g), irs, stream)
  {
    if InOrder(c.rcv, g) && |g.payload| - Trim(c.rcv, g) <= TCP_BUFFER - |c.rcv.data| {
      StoreKeeps(c.rcv, g, irs, stream);
    }
  }

  lemma {:induction false} ProcessKeeps(c: Tcp, g: Incoming, env: Env, irs: u32, stream: seq<u8>)
    requires RecvInv(c, irs, stream) && |stream| < 0x1_0000_0000
    requires Open(c.phase)
    requires exists o: nat :: At(g, irs, stream, o)
    ensures RecvInv(Process(c, g, env), irs, stream)
  {
    var c1 := c.(ctl := UpdateWindow(c.ctl, g));
    AcknowledgeSendSide(c1, g.acknowledgement, env);
    ReceiveKeeps(c1, g, irs, stream);
    ReceiveKeeps(Acknowledge(c1, g.acknowledgement, env), g, irs, stream);
  }

  lemma {:induction false} HandshakeRecv(c: Tcp, g: Incoming, env: Env, irs: u32, stream: seq<u8>)
    requires RecvInv(c, irs, stream) && c.phase == SynSent && FromPeer(g, irs, stream)
    ensures RecvInv(Handshake(c, g, env), irs, stream)
  {
    assert Wrap32(irs + 1) == Wrap32(irs + 1 + |c.rcv.data|);
  }

  lemma {:induction false} InputKeeps(c: Tcp, g: Incoming, env: Env, irs: u32, stream: seq<u8>)
    requires RecvInv(c, irs, stream) && |stream| < 0x1_0000_0000 && (Addressed(c, g) ==> FromPeer(g, irs, stream))
    ensures RecvInv(InputStep(c, g, env), irs, stream)
  {
    if !Addressed(c, g) {
      assert InputStep(c, g, env) == c;
    } else if c.phase == SynSent {
      HandshakeRecv(c, g, env, irs, stream);
    } else if Open(c.phase) && !Rst(g.flags) && !Syn(g.flags) {
      ProcessKeeps(c, g, env, irs, stream);
    }
  }

  /** A segment for this connection's ports. */
  predicate Addressed(c: Tcp, g: Incoming) { g.source == c.peerPort && g.destination == c.localPort }

  /** Everything that arrives on this connection's ports comes from the peer. */
  ghost predicate PeerEvents(c: Tcp, events: seq<Event>, irs: u32, stream: seq<u8>)
  {
    forall i :: 0 <= i < |events| && events[i].Input? && Addressed(c, events[i].segment) ==>
      FromPeer(events[i].segment, irs, stream)
  }

  lemma {:induction false} StepPorts(c: Tcp, e: Event)
    ensures Step(c, e).localPort == c.localPort && Step(c, e).peerPort == c.peerPort
  {
    match e
    case Tick(env) => TickPorts(c, env);
    case Input(g, env) => InputPorts(c, g, env);
  }

  lemma {:induction false} TickPorts(c: Tcp, env: Env)
    ensures TickStep(c, env).localPort == c.localPort && TickStep(c, env).peerPort == c.peerPort
  {
  }

  lemma {:induction false} InputPorts(c: Tcp, g: Incoming, env: Env)
    ensures InputStep(c, g, env).localPort == c.localPort && InputStep(c, g, env).peerPort == c.peerPort
  {
  }

  lemma {:induction false} RunPorts(c: Tcp, events: seq<Event>)
    ensures Run(c, events).localPort == c.localPort && Run(c, events).peerPort == c.peerPort
  {
    if events != [] {
      RunPorts(c, events[..|events| - 1]);
      StepPorts(Run(c, events[..|events| - 1]), events[|events| - 1]);
    }
  }

  lemma {:induction false} RunRecv(c: Tcp, events: seq<Event>, irs: u32, stream: seq<u8>)
    requires RecvInv(c, irs, stream) && c.phase != Idle
    requires |stream| < 0x1_0000_0000 && PeerEvents(c, events, irs, stream)
    ensures RecvInv(Run(c, events), irs, stream) && Run(c, events).phase != Idle
  {
    if events != [] {
      var before, e := events[..|events| - 1], events[|events| - 1];
      RunRecv(c, before, irs, stream);
      match e
      case Tick(env) => TickSendSide(Run(c, before), env);
      case Input(g, env) =>
        RunPorts(c, before);
        InputKeeps(Run(c, before), g, env, irs, stream);
        NeverIdle(Run(c, before), g, env);
    }
  }

  lemma {:induction false} NeverIdle(c: Tcp, g: Incoming, env: Env)
    requires c.phase != Idle
    ensures InputStep(c, g, env).phase != Idle
  {
    var c1 := c.(ctl := UpdateWindow(c.ctl, g));
    AcknowledgeSendSide(c1, g.acknowledgement, env);
  }

  /** Reception: in every run whose arrivals come from one peer stream shorter than the sequence
      space, the stored bytes are a prefix of that stream, and the whole of it once the FIN is in. */
  lemma {:induction false} Reception(c: Tcp, events: seq<Event>, irs: u32, stream: seq<u8>)
    requires Initial(c) && |stream| < 0x1_0000_0000 && PeerEvents(c, events, irs, stream)
    ensures Stored(Run(c, events).rcv, stream)
    ensures Open(Run(c, events).phase) ==> Aligned(Run(c, events).rcv, irs)
  {
    InitialRecv(c, irs, stream);
    RunRecv(c, events, irs, stream);
  }

  lemma {:induction false} InitialRecv(c: Tcp, irs: u32, stream: seq<u8>)
    requires Initial(c)
    ensures RecvInv(c, irs, stream) && c.phase != Idle
  {
  }

  lemma {:induction false} StepOnlyAppends(c: Tcp, e: Event)
    ensures c.rcv.data <= Step(c, e).rcv.data
  {
    match e
    case Tick(env) =>
      LossSendSide(c.(ackPending := c.ackPending && !env.ackOk), env, true);
    case Input(g, env) =>
      ProcessAppends(c, g, env);
  }

  lemma {:induction false} ProcessAppends(c: Tcp, g: Incoming, env: Env)
    ensures c.rcv.data <= Process(c, g, env).rcv.data
  {
    AcknowledgeSendSide(c.(ctl := UpdateWindow(c.ctl, g)), g.acknowledgement, env);
  }

  /** Bytes once stored never change, whatever arrives later from anyone. */
  lemma {:induction false} StoredForever(c: Tcp, events: seq<Event>)
    ensures c.rcv.data <= Run(c, events).rcv.data
  {
    if events != [] {
      StoredForever(c, events[..|events| - 1]);
      StepOnlyAppends(Run(c, events[..|events| - 1]), events[|events| - 1]);
    }
  }
}
