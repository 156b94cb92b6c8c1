/** The bounded active-open TCP stream of jordyOS/net/tcp.c as a state machine on values.

    A `Tcp` value holds the fields of the C record that decide what the connection does, grouped
    by what they are about, plus `wire`, the history of everything `transmit` got onto the link.
    One `Event` is one call of `tcp_tick` or `tcp_input`; its `Env` carries the clock, the link's
    answer to each `emit` and whatever the congestion controller answers if it is consulted. */
module TcpModel {
  import opened Words

  const TCP_BUFFER := 16384
  const TCP_SLOTS := 16
  const TCP_MSS := 536
  const RTO_MAX := 60_000_000
  const SYN: u8 := 2
  const ACK_PSH: u8 := 24
  const ACK_FIN: u8 := 17

  /** A pacing rate in bytes per second; the controller never answers zero. */
  type Rate = x: u64 | 0 < x witness 1

  datatype Phase = Idle | SynSent | Established | Closing | Done | Failed

  datatype Segment = Segment(
    sequence: u32, offset: u32, length: u32, sentUs: u64, flags: u8, retries: u8, used: bool)

  /** One successful `transmit`: what went on the wire, and when. */
  datatype Sent = Sent(sequence: u32, flags: u8, payload: seq<u8>, at: u64)

  /** The outgoing stream. */
  datatype Sender = Sender(
    isn: u32, una: u32, next: u32, tx: seq<u8>, txOffset: u32, delivered: u32,
    ownFin: bool, ownFinAcked: bool, pending: seq<Segment>, wire: seq<Sent>)

  /** The incoming stream: `data` is rx[..rx_size]. */
  datatype Receiver = Receiver(next: u32, data: seq<u8>, fin: bool)

  /** Flow and congestion control. */
  datatype Control = Control(
    peerWindow: u16, windowSeq: u32, windowAck: u32,
    cwnd: u32, rate: Rate, recovery: bool, recoveryEnd: u32, dupacks: u32)

  datatype Clock = Clock(
    srtt: u32, rttvar: u32, rto: u32, started: u64, nextSend: u64, timer: u64, probe: u64)

  datatype Tcp = Tcp(
    phase: Phase, localPort: u16, peerPort: u16, mss: u16, ackPending: bool,
    snd: Sender, rcv: Receiver, ctl: Control, clk: Clock)

  /** The outside world during one call: clock, link answers, controller answers. */
  datatype Env = Env(now: u64, ackOk: bool, sendOk: bool, cwnd: u32, rate: Rate)

  /** A parsed incoming segment. */
  datatype Incoming = Incoming(
    source: u16, destination: u16, sequence: u32, acknowledgement: u32,
    flags: u8, window: u16, options: seq<u8>, payload: seq<u8>)

  datatype Event = Tick(env: Env) | Input(segment: Incoming, env: Env)

  // ----- sequence numbers and flags

  /** `a` precedes `b` on the 32-bit circle. */
  predicate Before(a: u32, b: u32) { Wrap32(a - b) >= 0x8000_0000 }

  predicate Fin(flags: u8) { flags % 2 == 1 }
  predicate Syn(flags: u8) { flags / 2 % 2 == 1 }
  predicate Rst(flags: u8) { flags / 4 % 2 == 1 }
  predicate Ack(flags: u8) { flags / 16 % 2 == 1 }

  /** Sequence numbers a segment occupies. */
  function Size(s: Segment): nat
  {
    s.length + if Syn(s.flags) || Fin(s.flags) then 1 else 0
  }

  const EMPTY_SEGMENT := Segment(0, 0, 0, 0, 0, 0, false)

  /** The bytes `c->tx + offset .. + length`; a range outside the buffer yields nothing.  The
      invariants show that no reachable segment leaves the buffer. */
  function Slice(tx: seq<u8>, offset: nat, length: nat): seq<u8>
  {
    if offset + length <= |tx| then tx[offset..offset + length] else []
  }

  // ----- scans over the pending slots

  /** `oldest`: scans slots `i..`, `best` being the slot chosen so far (-1 for none). */
  function OldestFrom(p: seq<Segment>, i: nat, best: int): (r: int)
    requires i <= |p| && -1 <= best < |p|
    ensures -1 <= r < |p|
    decreases |p| - i
  {
    if i == |p| then best
    else if p[i].used && (best < 0 || Before(p[i].sequence, p[best].sequence)) then OldestFrom(p, i + 1, i)
    else OldestFrom(p, i + 1, best)
  }

  function Oldest(p: seq<Segment>): (r: int)
    ensures -1 <= r < |p|
  {
    OldestFrom(p, 0, -1)
  }

  function Inflight(p: seq<Segment>): (n: nat)
    ensures n <= |p|
  {
    if p == [] then 0 else Inflight(p[..|p| - 1]) + if p[|p| - 1].used then 1 else 0
  }

  /** The first unused slot from `i` on, or |p|. */
  function FreeSlot(p: seq<Segment>, i: nat): (r: nat)
    requires i <= |p|
    ensures i <= r <= |p|
    ensures r < |p| ==> !p[r].used
    ensures forall k :: i <= k < r ==> p[k].used
    decreases |p| - i
  {
    if i == |p| || !p[i].used then i else FreeSlot(p, i + 1)
  }

  // ----- transmit, loss, RTT

  function PaceGap(length: u32, rate: Rate): nat
  {
    Max(1, Wrap64(length * 1_000_000 + rate - 1) / rate)
  }

  /** Logs one accepted transmission. */
  function Logged(d: Sender, s: Segment, now: u64): Sender
  {
    d.(wire := d.wire + [Sent(s.sequence, s.flags, Slice(d.tx, s.offset, s.length), now)])
  }

  /** The pacing clock after `transmit`: always scheduled from now. */
  function Paced(k: Clock, length: u32, rate: Rate, now: u64): Clock
  {
    if length > 0 then k.(nextSend := Wrap64(now + PaceGap(length, rate))) else k
  }

  function RttSample(k: Clock, sample: u32): Clock
  {
    var rtt: u32 := if sample == 0 then 1 else sample;
    var k1 :=
      if k.srtt == 0 then k.(srtt := rtt, rttvar := rtt / 2)
      else
        var difference := if k.srtt > rtt then k.srtt - rtt else rtt - k.srtt;
        k.(rttvar := Wrap32(Wrap32(3 * k.rttvar) + difference) / 4,
           srtt := Wrap32(Wrap32(7 * k.srtt) + rtt) / 8);
    k1.(rto := Min(RTO_MAX, Max(1_000_000, k1.srtt + Max(1000, 4 * k1.rttvar))))
  }

  /** The controller's answer replaces window and rate. */
  function Feedback(x: Control, env: Env): Control
  {
    x.(cwnd := env.cwnd, rate := env.rate)
  }

  function Abort(c: Tcp): Tcp { c.(phase := Failed) }

  /** The sender after slot `i` has gone out once more. */
  function Resent(d: Sender, i: nat, now: u64): Sender
    requires i < |d.pending| && d.pending[i].retries < 255
  {
    var s := d.pending[i];
    Logged(d, s, now).(pending := d.pending[i := s.(sentUs := now, retries := s.retries + 1)])
  }

  function Loss(c: Tcp, env: Env, timeout: bool): Tcp
  {
    var i := Oldest(c.snd.pending);
    if i < 0 then c
    else
      var s := c.snd.pending[i];
      if s.retries >= 8 then Abort(c)
      else if env.now < c.clk.nextSend && s.length > 0 then c
      else if !env.sendOk then c
      else
        c.(snd := Resent(c.snd, i, env.now),
           clk := Paced(c.clk, s.length, c.ctl.rate, env.now).(
             timer := env.now,
             rto := if timeout then Min(RTO_MAX, Wrap32(c.clk.rto * 2)) else c.clk.rto),
           ctl := if c.phase == SynSent then c.ctl
                  else Feedback(c.ctl, env).(recovery := true, recoveryEnd := c.snd.next))
  }

  // ----- acknowledgements

  /** What a cumulative ACK leaves of one slot. */
  function AckSlot(s: Segment, a: u32): Segment
  {
    if !s.used || !Before(s.sequence, a) then s
    else
      var consumed := Wrap32(a - s.sequence);
      if consumed >= Size(s) then s.(used := false)
      else s.(sequence := Wrap32(s.sequence + consumed),
              offset := Wrap32(s.offset + consumed), length := s.length - consumed)
  }

  /** Payload bytes a cumulative ACK newly covers in one slot. */
  function AckBytes(s: Segment, a: u32): nat
  {
    if !s.used || !Before(s.sequence, a) then 0
    else if Wrap32(a - s.sequence) >= Size(s) then s.length else Wrap32(a - s.sequence)
  }

  predicate AckTakesFin(s: Segment, a: u32)
  {
    s.used && Before(s.sequence, a) && Wrap32(a - s.sequence) >= Size(s) && Fin(s.flags)
  }

  /** Running totals of the ACK loop over the slots. */
  datatype Scan = Scan(bytes: u32, fin: bool, retransmitted: bool, sample: Option<Segment>)

  function ScanStep(r: Scan, s: Segment, a: u32): Scan
  {
    if !s.used || !Before(s.sequence, a) then r
    else
      Scan(Wrap32(r.bytes + AckBytes(s, a)),
           r.fin || AckTakesFin(s, a),
           r.retransmitted || s.retries != 0,
           if s.retries == 0 && (r.sample.None? || Before(r.sample.value.sequence, s.sequence))
           then Some(s) else r.sample)
  }

  function ScanSlots(p: seq<Segment>, a: u32): Scan
  {
    if p == [] then Scan(0, false, false, None)
    else ScanStep(ScanSlots(p[..|p| - 1], a), p[|p| - 1], a)
  }

  function AckAll(p: seq<Segment>, a: u32): (r: seq<Segment>)
    ensures |r| == |p|
    ensures forall i :: 0 <= i < |p| ==> r[i] == AckSlot(p[i], a)
  {
    if p == [] then [] else AckAll(p[..|p| - 1], a) + [AckSlot(p[|p| - 1], a)]
  }

  /** The sender after a cumulative ACK that moves the left edge. */
  function Advance(d: Sender, a: u32): Sender
  {
    var r := ScanSlots(d.pending, a);
    d.(pending := AckAll(d.pending, a), ownFinAcked := d.ownFinAcked || r.fin,
       una := a, delivered := Wrap32(d.delivered + r.bytes))
  }

  function AckClock(clk: Clock, r: Scan, now: u64): Clock
  {
    var k := clk.(timer := now);
    if r.sample.Some? && !r.retransmitted
    then RttSample(k, Min(Wrap64(now - r.sample.value.sentUs), RTO_MAX)) else k
  }

  function Acknowledge(c: Tcp, a: u32, env: Env): Tcp
  {
    if Before(a, c.snd.una) || Before(c.snd.next, a) then c
    else if a == c.snd.una then
      if Oldest(c.snd.pending) < 0 then c
      else
        var c1 := c.(ctl := c.ctl.(dupacks := Wrap32(c.ctl.dupacks + 1)));
        if c1.ctl.dupacks == 3 && !c.ctl.recovery then Loss(c1, env, false) else c1
    else
      c.(snd := Advance(c.snd, a),
         clk := AckClock(c.clk, ScanSlots(c.snd.pending, a), env.now),
         ctl := Feedback(c.ctl, env).(
           dupacks := 0, recovery := c.ctl.recovery && Before(a, c.ctl.recoveryEnd)))
  }

  // ----- tcp_start

  function EmptySlots(n: nat): (p: seq<Segment>)
    ensures |p| == n && forall i :: 0 <= i < n ==> p[i] == EMPTY_SEGMENT
  {
    if n == 0 then [] else EmptySlots(n - 1) + [EMPTY_SEGMENT]
  }

  function Start(local: u16, peer: u16, isn: u32, data: seq<u8>, env: Env): Tcp
  {
    var rcv := Receiver(0, [], false);
    if local == 0 || peer == 0 || |data| > TCP_BUFFER then
      Tcp(Failed, 0, 0, 0, false, Sender(0, 0, 0, [], 0, 0, false, false, EmptySlots(TCP_SLOTS), []),
          rcv, Control(0, 0, 0, 0, 1, false, 0, 0), Clock(0, 0, 0, 0, 0, 0, 0))
    else
      Tcp(SynSent, local, peer, TCP_MSS, false,
          Sender(isn, isn, isn, data, 0, 0, false, false, EmptySlots(TCP_SLOTS), []),
          rcv, Control(0, 0, 0, env.cwnd, env.rate, false, 0, 0),
          Clock(0, 0, 1_000_000, env.now, 0, 0, 0))
  }

  /** A state `tcp_start` can leave behind. */
  ghost predicate Initial(c: Tcp)
  {
    exists local, peer, isn, data, env :: c == Start(local, peer, isn, data, env)
  }

  // ----- tcp_input

  /** The option scan of the handshake: the peer's segment size, or None for a malformed list. */
  function ParseMss(o: seq<u8>, i: nat, mss: u16): Option<u16>
    requires i <= |o|
    decreases |o| - i
  {
    if i == |o| || o[i] == 0 then Some(mss)
    else if o[i] == 1 then ParseMss(o, i + 1, mss)
    else if i + 1 >= |o| || o[i + 1] < 2 || i + o[i + 1] as int > |o| then None
    else if o[i] == 2 then
      if o[i + 1] != 4 || (o[i + 2] == 0 && o[i + 3] == 0) then None
      else ParseMss(o, i + 4, Min(mss, o[i + 2] as int * 256 + o[i + 3] as int))
    else ParseMss(o, i + o[i + 1] as int, mss)
  }

  /** The connection as the SYN-ACK opens it. */
  function Establish(c: Tcp, g: Incoming, mss: u16, env: Env): Tcp
    requires |c.snd.pending| > 0
  {
    var syn := c.snd.pending[0];
    c.(mss := mss, phase := Established, ackPending := true,
       rcv := c.rcv.(next := Wrap32(g.sequence + 1)),
       ctl := c.ctl.(peerWindow := g.window, windowSeq := g.sequence, windowAck := g.acknowledgement),
       snd := c.snd.(una := g.acknowledgement, pending := c.snd.pending[0 := syn.(used := false)]),
       clk := SynClock(c.clk, syn, env.now))
  }

  /** A SYN that went out once gives the first RTT sample; otherwise the timeout is three seconds. */
  function SynClock(k: Clock, syn: Segment, now: u64): Clock
  {
    if syn.retries == 0 then RttSample(k, Min(Wrap64(now - syn.sentUs), RTO_MAX)) else k.(rto := 3_000_000)
  }

  function Handshake(c: Tcp, g: Incoming, env: Env): Tcp
  {
    if Rst(g.flags) && Ack(g.flags) && g.acknowledgement == Wrap32(c.snd.isn + 1) then Abort(c)
    else if !(Syn(g.flags) && Ack(g.flags) && !Rst(g.flags) && !Fin(g.flags)) ||
            g.acknowledgement != Wrap32(c.snd.isn + 1) || c.snd.next != g.acknowledgement ||
            |g.payload| > 0 || |c.snd.pending| == 0 then c
    else
      match ParseMss(g.options, 0, TCP_MSS)
      case None => c
      case Some(mss) => Establish(c, g, mss, env)
  }

  /** RFC 9293's acceptability test against the advertised window. */
  predicate Acceptable(r: Receiver, g: Incoming)
  {
    var window := Min(4096, TCP_BUFFER + 1 - |r.data|);
    var length := |g.payload| + if Fin(g.flags) then 1 else 0;
    if length > 0 then
      && Before(g.sequence, Wrap32(r.next + window))
      && !Before(Wrap32(g.sequence + length - 1), r.next)
    else
      || g.sequence == r.next
      || (window != 0 && !Before(g.sequence, r.next) && Before(g.sequence, Wrap32(r.next + window)))
  }

  /** How much of the front of a segment's text has already been received. */
  function Trim(r: Receiver, g: Incoming): (n: nat)
    ensures n <= |g.payload|
  {
    if Before(g.sequence, r.next) then Min(Wrap32(r.next - g.sequence), |g.payload|) else 0
  }

  predicate InOrder(r: Receiver, g: Incoming)
  {
    !r.fin && Wrap32(g.sequence + Trim(r, g)) == r.next
  }

  /** Appends the new part of an in-order segment. */
  function Store(r: Receiver, g: Incoming): Receiver
  {
    var text := g.payload[Trim(r, g)..];
    Receiver(Wrap32(r.next + |text| + if Fin(g.flags) then 1 else 0), r.data + text, Fin(g.flags))
  }

  function Receive(c: Tcp, g: Incoming): Tcp
  {
    if |g.payload| == 0 && !Fin(g.flags) then c
    else
      var c1 := c.(ackPending := true);
      if !InOrder(c.rcv, g) then c1
      else if |g.payload| - Trim(c.rcv, g) > TCP_BUFFER - |c.rcv.data| then Abort(c1)
      else c1.(rcv := Store(c.rcv, g))
  }

  /** The window-update rule of section 3.10.7.4 of RFC 9293. */
  function UpdateWindow(x: Control, g: Incoming): Control
  {
    if Before(x.windowSeq, g.sequence) ||
       (x.windowSeq == g.sequence && !Before(g.acknowledgement, x.windowAck))
    then x.(peerWindow := g.window, windowSeq := g.sequence, windowAck := g.acknowledgement,
            dupacks := if g.window != x.peerWindow then 0 else x.dupacks)
    else x
  }

  function Process(c: Tcp, g: Incoming, env: Env): Tcp
  {
    if Before(c.snd.next, g.acknowledgement) then c.(ackPending := true)
    else if Before(g.acknowledgement, c.snd.una) then c
    else
      var c1 := c.(ctl := UpdateWindow(c.ctl, g));
      var changed := c1.ctl.peerWindow != c.ctl.peerWindow;
      var c2 := if g.acknowledgement != c.snd.una || (|g.payload| == 0 && !Fin(g.flags) && !changed)
                then Acknowledge(c1, g.acknowledgement, env) else c1;
      Receive(c2, g)
  }

  function InputStep(c: Tcp, g: Incoming, env: Env): Tcp
  {
    if g.source != c.peerPort || g.destination != c.localPort then c
    else if c.phase == SynSent then Handshake(c, g, env)
    else if c.phase != Established && c.phase != Closing && c.phase != Done then c
    else if Rst(g.flags) then
      if g.sequence == c.rcv.next then Abort(c) else c.(ackPending := true)
    else if Syn(g.flags) && Ack(g.flags) && Wrap32(g.sequence + 1) == c.rcv.next &&
            g.acknowledgement == Wrap32(c.snd.isn + 1) then c.(ackPending := true)
    else if Syn(g.flags) || !Ack(g.flags) then c
    else if !Acceptable(c.rcv, g) then c.(ackPending := true)
    else Process(c, g, env)
  }

  // ----- tcp_tick

  /** The sender after segment `s` went out for the first time and took slot `k`. */
  function Extended(d: Sender, s: Segment, k: nat, now: u64): Sender
    requires k < |d.pending|
  {
    Logged(d, s, now).(
      pending := d.pending[k := s.(sentUs := now)], next := Wrap32(d.next + Size(s)),
      txOffset := Wrap32(d.txOffset + s.length), ownFin := d.ownFin || Fin(s.flags))
  }

  function SynSegment(d: Sender): Segment { Segment(d.isn, 0, 0, 0, SYN, 0, true) }

  /** The one-byte zero-window probe: sequence number and byte. */
  function Probe(d: Sender): (u32, u8)
  {
    (Wrap32(d.next - 1), if 0 < d.txOffset <= |d.tx| then d.tx[d.txOffset - 1] else 0)
  }

  /** The segment `tcp_tick` builds: as much data as fits, or a FIN when there is none left. */
  function NextSegment(d: Sender, mss: u16, room: nat): (s: Segment)
    requires d.txOffset <= |d.tx|
  {
    var length := Min(mss, Min(|d.tx| - d.txOffset, room));
    Segment(d.next, d.txOffset, length, 0, if length > 0 then ACK_PSH else ACK_FIN, 0, true)
  }

  /** The connection after `s` went out for the first time from slot `k`. */
  function SendNew(c: Tcp, s: Segment, k: nat, env: Env): Tcp
    requires k < |c.snd.pending|
  {
    c.(snd := Extended(c.snd, s, k, env.now),
       clk := Paced(c.clk, s.length, c.ctl.rate, env.now).(
         timer := if Oldest(c.snd.pending) < 0 then env.now else c.clk.timer),
       phase := if Fin(s.flags) then Closing else c.phase)
  }

  /** Pacing, both windows, the slots and the link allow a new segment. */
  predicate MaySend(c: Tcp, env: Env)
  {
    var d := c.snd;
    && !d.ownFin && env.now >= c.clk.nextSend && Inflight(d.pending) < c.ctl.cwnd
    && Wrap32(d.next - d.una) < c.ctl.peerWindow && d.txOffset <= |d.tx|
    && FreeSlot(d.pending, 0) < |d.pending| && env.sendOk
  }

  function TickSend(c: Tcp, env: Env): Tcp
  {
    var d := c.snd;
    if !MaySend(c, env) then c
    else
      var s := NextSegment(d, c.mss, c.ctl.peerWindow - Wrap32(d.next - d.una));
      if s.length == 0 && (d.txOffset != |d.tx| || Inflight(d.pending) > 0) then c
      else SendNew(c, s, FreeSlot(d.pending, 0), env)
  }

  function TickSyn(c: Tcp, env: Env): Tcp
  {
    if c.snd.next != c.snd.isn || !env.sendOk || |c.snd.pending| == 0 then c
    else c.(snd := Extended(c.snd, SynSegment(c.snd), 0, env.now), clk := c.clk.(timer := env.now))
  }

  function TickTimed(c: Tcp, env: Env): Tcp
  {
    if c.phase == Done then c
    else if Oldest(c.snd.pending) >= 0 && Wrap64(env.now - c.clk.timer) >= c.clk.rto then Loss(c, env, true)
    else if c.phase == SynSent then TickSyn(c, env)
    else TickOpen(c, env)
  }

  /** A tick of an open connection whose timer has not run out: finish, probe or send. */
  function TickOpen(c: Tcp, env: Env): Tcp
  {
    if c.snd.ownFinAcked && c.rcv.fin && !c.ackPending then c.(phase := Done)
    else if c.ctl.peerWindow == 0 && Wrap64(env.now - c.clk.probe) >= 1_000_000 then
      if env.sendOk then c.(clk := c.clk.(probe := env.now)) else c
    else TickSend(c, env)
  }

  function TickStep(c: Tcp, env: Env): Tcp
  {
    if c.phase == Idle || c.phase == Failed then c
    else if c.phase != Done && Wrap64(env.now - c.clk.started) > 120_000_000 then Abort(c)
    else TickTimed(c.(ackPending := c.ackPending && !env.ackOk), env)
  }

  // ----- runs

  function Step(c: Tcp, e: Event): Tcp
  {
    match e
    case Tick(env) => TickStep(c, env)
    case Input(g, env) => InputStep(c, g, env)
  }

  /** The state after a whole run of calls. */
  function Run(c: Tcp, events: seq<Event>): Tcp
  {
    if events == [] then c else Step(Run(c, events[..|events| - 1]), events[|events| - 1])
  }
}
