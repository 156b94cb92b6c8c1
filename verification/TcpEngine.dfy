/** The imperative TCP engine: one record updated in place, each operation proved to take the
    state exactly where the transition function of `TcpModel` takes it. */
module TcpEngine {
  import opened Words
  import M = TcpModel
  import opened TcpModel

  /** The scalars of the outgoing stream. */
  datatype Outgoing = Outgoing(
    isn: u32, una: u32, next: u32, tx: seq<u8>, txOffset: u32, delivered: u32, ownFin: bool, ownFinAcked: bool)

  class Connection {
    var phase: Phase
    var localPort: u16
    var peerPort: u16
    var mss: u16
    var ackPending: bool
    // the outgoing stream
    var out: Outgoing
    const pending: array<Segment>
    ghost var wire: seq<Sent>
    // the incoming stream
    var receiveNext: u32
    var rxSize: nat
    var peerFin: bool
    const rx: array<u8>
    // flow control and timers
    var ctl: Control
    var clk: Clock

    ghost predicate Valid()
      reads this
    {
      pending.Length == TCP_SLOTS && rx.Length == TCP_BUFFER && rxSize <= TCP_BUFFER
    }

    ghost function Snd(): Sender
      reads this, pending
    {
      Sender(out.isn, out.una, out.next, out.tx, out.txOffset, out.delivered, out.ownFin, out.ownFinAcked,
             pending[..], wire)
    }

    ghost function Rcv(): Receiver
      requires Valid()
      reads this, rx
    {
      Receiver(receiveNext, rx[..rxSize], peerFin)
    }

    /** The abstract state of the record. */
    ghost function View(): Tcp
      requires Valid()
      reads this, pending, rx
    {
      Tcp(phase, localPort, peerPort, mss, ackPending, Snd(), Rcv(), ctl, clk)
    }

    constructor (local: u16, peer: u16, initial: u32, data: seq<u8>, env: Env)
      ensures Valid() && fresh(pending) && fresh(rx)
      ensures View() == M.Start(local, peer, initial, data, env)
    {
      var ok := local != 0 && peer != 0 && |data| <= TCP_BUFFER;
      phase := if ok then SynSent else Failed;
      localPort, peerPort, mss := if ok then local else 0, if ok then peer else 0, if ok then TCP_MSS else 0;
      var first := if ok then initial else 0;
      out := Outgoing(first, first, first, if ok then data else [], 0, 0, false, false);
      wire := [];
      receiveNext, rxSize, peerFin, ackPending := 0, 0, false, false;
      ctl := Control(0, 0, 0, if ok then env.cwnd else 0, if ok then env.rate else 1, false, 0, 0);
      clk := Clock(0, 0, if ok then 1_000_000 else 0, if ok then env.now else 0, 0, 0, 0);
      pending := new Segment[TCP_SLOTS](_ => EMPTY_SEGMENT);
      rx := new u8[TCP_BUFFER](_ => 0);
      new;
      assert pending[..] == EmptySlots(TCP_SLOTS);
    }

    method OldestSlot() returns (i: int)
      requires Valid()
      ensures i == M.Oldest(pending[..])
    {
      i := -1;
      var k := 0;
      while k < pending.Length
        invariant 0 <= k <= pending.Length && -1 <= i < pending.Length
        invariant OldestFrom(pending[..], k, i) == M.Oldest(pending[..])
      {
        if pending[k].used && (i < 0 || Before(pending[k].sequence, pending[i].sequence)) { i := k; }
        k := k + 1;
      }
    }

    method CountInflight() returns (n: nat)
      requires Valid()
      ensures n == M.Inflight(pending[..])
    {
      n := 0;
      for k := 0 to pending.Length
        invariant n == M.Inflight(pending[..k])
      {
        assert pending[..k + 1][..k] == pending[..k];
        if pending[k].used { n := n + 1; }
      }
      assert pending[..pending.Length] == pending[..];
    }

    method Sample(sample: u32)
      modifies this`clk
      ensures clk == M.RttSample(old(clk), sample)
    {
      var k := clk;
      var rtt: u32 := if sample == 0 then 1 else sample;
      if k.srtt == 0 {
        k := k.(srtt := rtt, rttvar := rtt / 2);
      } else {
        var difference := if k.srtt > rtt then k.srtt - rtt else rtt - k.srtt;
        k := k.(rttvar := Wrap32(Wrap32(3 * k.rttvar) + difference) / 4,
                srtt := Wrap32(Wrap32(7 * k.srtt) + rtt) / 8);
      }
      clk := k.(rto := Min(RTO_MAX, Max(1_000_000, k.srtt + Max(1000, 4 * k.rttvar))));
    }

    /** `transmit` once the link has taken the segment. */
    method Transmit(s: Segment, now: u64) returns (t: Segment)
      modifies this`clk, this`wire
      ensures t == s.(sentUs := now)
      ensures wire == old(wire) + [Sent(s.sequence, s.flags, Slice(out.tx, s.offset, s.length), now)]
      ensures clk == M.Paced(old(clk), s.length, ctl.rate, now)
    {
      wire := wire + [Sent(s.sequence, s.flags, Slice(out.tx, s.offset, s.length), now)];
      t := s.(sentUs := now);
      if s.length > 0 { clk := clk.(nextSend := Wrap64(now + PaceGap(s.length, ctl.rate))); }
    }

    /** Sends the pending segment in slot `i` once more. */
    method Resend(i: nat, now: u64)
      requires Valid() && i < TCP_SLOTS && pending[i].retries < 255
      modifies this`clk, this`wire, pending
      ensures Snd() == M.Resent(old(Snd()), i, now)
      ensures clk == M.Paced(old(clk), old(pending[i]).length, ctl.rate, now)
    {
      var t := Transmit(pending[i], now);
      pending[i] := t.(retries := t.retries + 1);
      assert pending[..] == old(pending[..])[i := t.(retries := t.retries + 1)];
    }

    method Lose(env: Env, timeout: bool)
      requires Valid()
      modifies this`phase, this`ctl, this`clk, this`wire, pending
      ensures View() == M.Loss(old(View()), env, timeout)
    {
      var i := OldestSlot();
      if i < 0 { return; }
      if pending[i].retries >= 8 { phase := Failed; return; }
      if env.now < clk.nextSend && pending[i].length > 0 { return; }
      if !env.sendOk { return; }
      var rto: u32 := if timeout then Min(RTO_MAX, Wrap32(clk.rto * 2)) else clk.rto;
      Resend(i, env.now);
      clk := clk.(timer := env.now, rto := rto);
      if phase == SynSent { return; }
      ctl := ctl.(recovery := true, recoveryEnd := out.next, cwnd := env.cwnd, rate := env.rate);
    }

    /** One turn of the loop of `ack`: drop, trim or keep slot `i`, and total what was covered. */
    method AckOne(i: nat, a: u32, r: Scan) returns (t: Scan)
      requires i < pending.Length
      modifies pending
      ensures pending[i] == M.AckSlot(old(pending[i]), a) && t == M.ScanStep(r, old(pending[i]), a)
      ensures forall k :: 0 <= k < pending.Length && k != i ==> pending[k] == old(pending[k])
    {
      var s := pending[i];
      t := r;
      if !s.used || !Before(s.sequence, a) { return; }
      var consumed := Wrap32(a - s.sequence);
      t := t.(retransmitted := r.retransmitted || s.retries != 0);
      if s.retries == 0 && (r.sample.None? || Before(r.sample.value.sequence, s.sequence)) {
        t := t.(sample := Some(s));
      }
      if consumed >= Size(s) {
        t := t.(bytes := Wrap32(r.bytes + s.length), fin := r.fin || Fin(s.flags));
        pending[i] := s.(used := false);
      } else {
        t := t.(bytes := Wrap32(r.bytes + consumed));
        pending[i] := s.(sequence := Wrap32(s.sequence + consumed),
                         offset := Wrap32(s.offset + consumed), length := s.length - consumed);
      }
    }

    method AckSlots(a: u32) returns (r: Scan)
      requires Valid()
      modifies pending
      ensures pending[..] == M.AckAll(old(pending[..]), a) && r == M.ScanSlots(old(pending[..]), a)
    {
      r := Scan(0, false, false, None);
      ghost var was := pending[..];
      for i := 0 to pending.Length
        invariant forall k :: 0 <= k < i ==> pending[k] == AckSlot(was[k], a)
        invariant forall k :: i <= k < pending.Length ==> pending[k] == was[k]
        invariant r == ScanSlots(was[..i], a)
      {
        assert was[..i + 1][..i] == was[..i];
        r := AckOne(i, a, r);
      }
      assert was[..pending.Length] == was;
    }

    /** Restarts the timer and samples the round trip unless something was sent twice. */
    method Stamp(r: Scan, now: u64)
      modifies this`clk
      ensures clk == M.AckClock(old(clk), r, now)
    {
      clk := clk.(timer := now);
      if r.sample.Some? && !r.retransmitted {
        Sample(Min(Wrap64(now - r.sample.value.sentUs), RTO_MAX));
      }
    }

    /** A cumulative ACK that moves the left edge. */
    method MoveEdge(a: u32, env: Env)
      requires Valid()
      modifies this`out, this`clk, this`ctl, pending
      ensures Snd() == M.Advance(old(Snd()), a)
      ensures clk == M.AckClock(old(clk), ScanSlots(old(pending[..]), a), env.now)
      ensures ctl == M.Feedback(old(ctl), env).(
                dupacks := 0, recovery := old(ctl).recovery && Before(a, old(ctl).recoveryEnd))
    {
      var r := AckSlots(a);
      out := out.(una := a, delivered := Wrap32(out.delivered + r.bytes),
                  ownFinAcked := out.ownFinAcked || r.fin);
      Stamp(r, env.now);
      ctl := ctl.(dupacks := 0, cwnd := env.cwnd, rate := env.rate,
                  recovery := ctl.recovery && Before(a, ctl.recoveryEnd));
    }

    method Acked(a: u32, env: Env)
      requires Valid()
      modifies this`phase, this`out, this`clk, this`ctl, this`wire, pending
      ensures View() == M.Acknowledge(old(View()), a, env)
    {
      if Before(a, out.una) || Before(out.next, a) { return; }
      if a != out.una { MoveEdge(a, env); return; }
      var i := OldestSlot();
      if i < 0 { return; }
      ctl := ctl.(dupacks := Wrap32(ctl.dupacks + 1));
      if ctl.dupacks == 3 && !ctl.recovery { Lose(env, false); }
    }

    /** The option loop of the handshake. */
    method ReadMss(o: seq<u8>) returns (r: Option<u16>)
      ensures r == M.ParseMss(o, 0, TCP_MSS)
    {
      var best: u16, i := TCP_MSS, 0;
      while i < |o|
        invariant 0 <= i <= |o|
        invariant M.ParseMss(o, i, best) == M.ParseMss(o, 0, TCP_MSS)
      {
        var kind := o[i];
        if kind == 0 { break; }
        if kind == 1 { i := i + 1; continue; }
        if i + 1 >= |o| || o[i + 1] < 2 || i + o[i + 1] as int > |o| { return None; }
        if kind == 2 {
          if o[i + 1] != 4 || (o[i + 2] == 0 && o[i + 3] == 0) { return None; }
          best := Min(best, o[i + 2] as int * 256 + o[i + 3] as int);
        }
        i := i + o[i + 1] as int;
      }
      r := Some(best);
    }

    method Open(g: Incoming, env: Env)
      requires Valid()
      modifies this`phase, this`mss, this`ackPending, this`out, this`receiveNext, this`ctl, this`clk, pending
      ensures View() == M.Handshake(old(View()), g, env)
    {
      var expected := Wrap32(out.isn + 1);
      if Rst(g.flags) && Ack(g.flags) && g.acknowledgement == expected { phase := Failed; return; }
      if !(Syn(g.flags) && Ack(g.flags) && !Rst(g.flags) && !Fin(g.flags)) ||
         g.acknowledgement != expected || out.next != g.acknowledgement || |g.payload| > 0 { return; }
      var best := ReadMss(g.options);
      if best.Some? { Establish(g, best.value, env); }
    }

    method Establish(g: Incoming, best: u16, env: Env)
      requires Valid()
      modifies this`phase, this`mss, this`ackPending, this`out, this`receiveNext, this`ctl, this`clk, pending
      ensures View() == M.Establish(old(View()), g, best, env)
    {
      mss, receiveNext := best, Wrap32(g.sequence + 1);
      ctl := ctl.(peerWindow := g.window, windowSeq := g.sequence, windowAck := g.acknowledgement);
      ReleaseSyn(g.acknowledgement, env.now);
      phase, ackPending := Established, true;
      assert Rcv() == old(Rcv()).(next := Wrap32(g.sequence + 1));
      assert old(View()).snd.pending[0] == old(pending[0]);
    }

    method ReleaseSyn(a: u32, now: u64)
      requires Valid()
      modifies this`out, this`clk, pending
      ensures Snd() == old(Snd()).(una := a, pending := old(pending[..])[0 := old(pending[0]).(used := false)])
      ensures clk == M.SynClock(old(clk), old(pending[0]), now)
    {
      out := out.(una := a);
      var syn := pending[0];
      pending[0] := syn.(used := false);
      assert pending[..] == old(pending[..])[0 := syn.(used := false)];
      if syn.retries == 0 {
        Sample(Min(Wrap64(now - syn.sentUs), RTO_MAX));
      } else {
        clk := clk.(rto := 3_000_000);
      }
    }

    /** memcpy of the new text behind the stored bytes. */
    method Append(text: seq<u8>)
      requires Valid() && rxSize + |text| <= TCP_BUFFER
      modifies this`rxSize, rx
      ensures Valid() && rx[..rxSize] == old(rx[..rxSize]) + text
    {
      var n := rxSize;
      for k := 0 to |text|
        invariant rxSize == n
        invariant rx[..n + k] == old(rx[..rxSize]) + text[..k]
      {
        rx[n + k] := text[k];
        assert rx[..n + k + 1] == rx[..n + k] + [text[k]];
        assert text[..k + 1] == text[..k] + [text[k]];
      }
      assert text[..|text|] == text;
      rxSize := n + |text|;
    }

    method Take(g: Incoming)
      requires Valid()
      modifies this`phase, this`ackPending, this`receiveNext, this`rxSize, this`peerFin, rx
      ensures Valid() && View() == M.Receive(old(View()), g)
    {
      if |g.payload| == 0 && !Fin(g.flags) { return; }
      ackPending := true;
      var trim := TrimFront(g);
      if peerFin || Wrap32(g.sequence + trim) != receiveNext { return; }
      var text := g.payload[trim..];
      if |text| > TCP_BUFFER - rxSize { phase := Failed; return; }
      Store(text, Fin(g.flags));
    }

    /** How much of the front has been received before. */
    method TrimFront(g: Incoming) returns (trim: nat)
      requires Valid()
      ensures trim == M.Trim(Rcv(), g)
    {
      trim := 0;
      if Before(g.sequence, receiveNext) { trim := Min(Wrap32(receiveNext - g.sequence), |g.payload|); }
    }

    method Store(text: seq<u8>, fin: bool)
      requires Valid() && rxSize + |text| <= TCP_BUFFER && !peerFin
      modifies this`receiveNext, this`rxSize, this`peerFin, rx
      ensures Valid()
      ensures Rcv() == Receiver(Wrap32(old(receiveNext) + |text| + if fin then 1 else 0),
                                old(rx[..rxSize]) + text, fin)
    {
      Append(text);
      receiveNext := Wrap32(receiveNext + |text| + if fin then 1 else 0);
      if fin { peerFin := true; }
    }

    method Deliver(g: Incoming, env: Env)
      requires Valid()
      modifies this, pending, rx
      ensures Valid() && View() == M.Process(old(View()), g, env)
    {
      if Before(out.next, g.acknowledgement) { ackPending := true; return; }
      if Before(g.acknowledgement, out.una) { return; }
      var changed := ReadWindow(g);
      if g.acknowledgement != out.una || (|g.payload| == 0 && !Fin(g.flags) && !changed) {
        Acked(g.acknowledgement, env);
      }
      Take(g);
    }

    /** Section 3.10.7.4 of RFC 9293: only newer segments update the send window. */
    method ReadWindow(g: Incoming) returns (changed: bool)
      modifies this`ctl
      ensures ctl == M.UpdateWindow(old(ctl), g) && changed == (ctl.peerWindow != old(ctl).peerWindow)
    {
      changed := false;
      if Before(ctl.windowSeq, g.sequence) ||
         (ctl.windowSeq == g.sequence && !Before(g.acknowledgement, ctl.windowAck)) {
        changed := g.window != ctl.peerWindow;
        ctl := ctl.(peerWindow := g.window, windowSeq := g.sequence, windowAck := g.acknowledgement);
        if changed { ctl := ctl.(dupacks := 0); }
      }
    }

    /** `tcp_input` on a parsed segment. */
    method Input(g: Incoming, env: Env)
      requires Valid()
      modifies this, pending, rx
      ensures Valid() && View() == M.InputStep(old(View()), g, env)
    {
      if g.source != peerPort || g.destination != localPort { return; }
      if phase == SynSent { Open(g, env); return; }
      if phase != Established && phase != Closing && phase != Done { return; }
      if Rst(g.flags) {
        if g.sequence == receiveNext { phase := Failed; } else { ackPending := true; }
        return;
      }
      if Syn(g.flags) && Ack(g.flags) && Wrap32(g.sequence + 1) == receiveNext &&
         g.acknowledgement == Wrap32(out.isn + 1) { ackPending := true; return; }
      if Syn(g.flags) || !Ack(g.flags) { return; }
      if !Acceptable(Receiver(receiveNext, rx[..rxSize], peerFin), g) { ackPending := true; return; }
      Deliver(g, env);
    }

    method FindFree() returns (k: nat)
      requires Valid()
      ensures k == M.FreeSlot(pending[..], 0)
    {
      k := 0;
      while k < pending.Length && pending[k].used
        invariant 0 <= k <= pending.Length
        invariant M.FreeSlot(pending[..], k) == M.FreeSlot(pending[..], 0)
      {
        k := k + 1;
      }
    }

    /** Sends `s` for the first time from slot `k`. */
    method Launch(s: Segment, k: nat, env: Env)
      requires Valid() && k < TCP_SLOTS
      modifies this`clk, this`wire, this`out, pending
      ensures Snd() == M.Extended(old(Snd()), s, k, env.now)
      ensures clk == M.Paced(old(clk), s.length, ctl.rate, env.now)
    {
      var t := Transmit(s, env.now);
      pending[k] := t;
      assert pending[..] == old(pending[..])[k := t];
      out := out.(next := Wrap32(out.next + Size(s)), txOffset := Wrap32(out.txOffset + s.length),
                  ownFin := out.ownFin || Fin(s.flags));
    }

    /** As much data as fits, or a FIN when there is none left. */
    method Build(room: nat) returns (s: Segment)
      requires Valid() && out.txOffset <= |out.tx|
      ensures s == M.NextSegment(Snd(), mss, room)
    {
      var length := Min(mss, Min(|out.tx| - out.txOffset, room));
      s := Segment(out.next, out.txOffset, length, 0, if length > 0 then ACK_PSH else ACK_FIN, 0, true);
    }

    method SendMore(env: Env)
      requires Valid()
      modifies this`phase, this`clk, this`wire, this`out, pending
      ensures View() == M.TickSend(old(View()), env)
    {
      var may := MaySend(env);
      if !may { return; }
      var flying := CountInflight();
      var k := FindFree();
      var s := Build(ctl.peerWindow - Wrap32(out.next - out.una));
      if s.length == 0 && (out.txOffset != |out.tx| || flying > 0) { return; }
      SendNew(s, k, env);
    }

    method MaySend(env: Env) returns (may: bool)
      requires Valid()
      ensures may == M.MaySend(View(), env)
    {
      var flying := CountInflight();
      if out.ownFin || env.now < clk.nextSend || flying >= ctl.cwnd { return false; }
      if Wrap32(out.next - out.una) >= ctl.peerWindow || out.txOffset > |out.tx| { return false; }
      var k := FindFree();
      may := k < pending.Length && env.sendOk;
    }

    method SendNew(s: Segment, k: nat, env: Env)
      requires Valid() && k < TCP_SLOTS
      modifies this`phase, this`clk, this`wire, this`out, pending
      ensures View() == M.SendNew(old(View()), s, k, env)
    {
      var oldest := OldestSlot();
      Launch(s, k, env);
      if oldest < 0 { clk := clk.(timer := env.now); }
      if Fin(s.flags) { phase := Closing; }
    }

    method Synchronize(env: Env)
      requires Valid()
      modifies this`clk, this`wire, this`out, pending
      ensures View() == M.TickSyn(old(View()), env)
    {
      if out.next != out.isn || !env.sendOk { return; }
      Launch(Segment(out.isn, 0, 0, 0, SYN, 0, true), 0, env);
      clk := clk.(timer := env.now);
    }

    method Advance(env: Env)
      requires Valid()
      modifies this, pending
      ensures Valid() && View() == M.TickTimed(old(View()), env)
    {
      if phase == Done { return; }
      var oldest := OldestSlot();
      if oldest >= 0 && Wrap64(env.now - clk.timer) >= clk.rto { Lose(env, true); return; }
      if phase == SynSent { Synchronize(env); return; }
      Continue(env);
    }

    /** Finishes, probes a closed window, or sends. */
    method Continue(env: Env)
      requires Valid()
      modifies this`phase, this`clk, this`wire, this`out, pending
      ensures Valid() && View() == M.TickOpen(old(View()), env)
    {
      if out.ownFinAcked && peerFin && !ackPending { phase := Done; return; }
      if ctl.peerWindow == 0 && Wrap64(env.now - clk.probe) >= 1_000_000 {
        if env.sendOk { clk := clk.(probe := env.now); }
        return;
      }
      SendMore(env);
    }

    /** `tcp_tick`. */
    method Tick(env: Env)
      requires Valid()
      modifies this, pending
      ensures Valid() && View() == M.TickStep(old(View()), env)
    {
      if phase == Idle || phase == Failed { return; }
      if phase != Done && Wrap64(env.now - clk.started) > 120_000_000 { phase := Failed; return; }
      if ackPending && env.ackOk { ackPending := false; }
      Advance(env);
    }
  }

  /** A whole connection driven by any script of calls ends where `Run` says. */
  method Drive(local: u16, peer: u16, isn: u32, data: seq<u8>, env: Env, script: seq<Event>)
    returns (c: Connection)
    ensures fresh(c) && c.Valid()
    ensures c.View() == M.Run(M.Start(local, peer, isn, data, env), script)
  {
    c := new Connection(local, peer, isn, data, env);
    ghost var start := c.View();
    for i := 0 to |script|
      invariant fresh(c) && fresh(c.pending) && fresh(c.rx) && c.Valid()
      invariant c.View() == M.Run(start, script[..i])
    {
      assert script[..i + 1][..i] == script[..i];
      match script[i] {
        case Tick(e) => c.Tick(e);
        case Input(g, e) => c.Input(g, e);
      }
    }
    assert script[..|script|] == script;
  }
}
