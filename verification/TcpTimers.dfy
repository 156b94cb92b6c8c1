/** Pacing, the retransmission timer and Karn's rule, over whole runs. */
module TcpTimers {
  import opened Words
  import opened TcpModel
  import opened TcpSender
  import opened TcpWire
  import opened TcpRun

  // ----- pacing: a linear budget on the wire log

  function Bytes(w: seq<Sent>): nat
  {
    if w == [] then 0 else Bytes(w[..|w| - 1]) + |w[|w| - 1].payload|
  }

  /** `bytes` fit into `us` microseconds at `rate` bytes per second. */
  predicate Fits(bytes: nat, us: int, rate: nat) { bytes * 1_000_000 <= rate * us }

  lemma {:induction false} FitsAdd(a: nat, s: int, b: nat, t: int, rate: nat)
    requires Fits(a, s, rate) && Fits(b, t, rate)
    ensures Fits(a + b, s + t, rate)
  {
  }

  lemma {:induction false} FitsMore(a: nat, s: int, t: int, rate: nat)
    requires Fits(a, s, rate) && s <= t
    ensures Fits(a, t, rate)
  {
    assert rate * s <= rate * t;
  }

  lemma {:induction false} FitsFewer(a: nat, b: nat, t: int, rate: nat)
    requires Fits(b, t, rate) && a <= b
    ensures Fits(a, t, rate)
  {
  }

  ghost predicate Spaced(w: seq<Sent>, rate: nat)
  {
    forall i, j :: 0 <= i < j < |w| ==> SpacedPair(w, i, j, rate)
  }

  predicate SpacedPair(w: seq<Sent>, i: nat, j: nat, rate: nat)
    requires i < j < |w|
  {
    w[i].payload != [] && w[j].payload != [] ==> Fits(Bytes(w[i..j]), w[j].at - w[i].at, rate)
  }

  ghost predicate Reserved(w: seq<Sent>, nextSend: u64, rate: nat)
  {
    forall i :: 0 <= i < |w| && w[i].payload != [] ==> Fits(Bytes(w[i..]), nextSend - w[i].at, rate)
  }

  /** One step of the log: nothing, a segment without data, or data no earlier than `nextSend`
      that pushes `nextSend` far enough to pay for itself. */
  predicate PaceStep(w: seq<Sent>, ns: u64, w1: seq<Sent>, ns1: u64, rate: nat)
  {
    || (w1 == w && ns1 == ns)
    || ( && |w1| == |w| + 1 && w1[..|w|] == w
         && var e := w1[|w|];
            if e.payload == [] then ns1 == ns
            else ns <= e.at && Fits(|e.payload|, ns1 - e.at, rate))
  }

  lemma {:induction false} BytesAppend(w: seq<Sent>, e: Sent, i: nat)
    requires i <= |w|
    ensures Bytes((w + [e])[i..]) == Bytes(w[i..]) + |e.payload|
  {
    assert (w + [e])[i..][..|w| - i] == w[i..];
  }

  lemma {:induction false} AppendSpaced(w: seq<Sent>, ns: u64, e: Sent, rate: nat)
    requires Spaced(w, rate) && Reserved(w, ns, rate) && (e.payload != [] ==> ns <= e.at)
    ensures Spaced(w + [e], rate)
  {
    var v := w + [e];
    forall i, j | 0 <= i < j < |v| ensures SpacedPair(v, i, j, rate) {
      if j < |w| {
        assert SpacedPair(w, i, j, rate);
        assert v[i..j] == w[i..j];
      } else if w[i].payload != [] && e.payload != [] {
        assert v[i..j] == w[i..];
        FitsMore(Bytes(w[i..]), ns - w[i].at, e.at - w[i].at, rate);
      }
    }
  }

  lemma {:induction false} AppendReserved(w: seq<Sent>, ns: u64, e: Sent, ns1: u64, rate: nat)
    requires Reserved(w, ns, rate)
    requires if e.payload == [] then ns1 == ns else ns <= e.at && Fits(|e.payload|, ns1 - e.at, rate)
    ensures Reserved(w + [e], ns1, rate)
  {
    var v := w + [e];
    forall i | 0 <= i < |v| && v[i].payload != []
      ensures Fits(Bytes(v[i..]), ns1 - v[i].at, rate)
    {
      BytesAppend(w, e, i);
      if i < |w| && e.payload != [] {
        FitsMore(Bytes(w[i..]), ns - w[i].at, e.at - w[i].at, rate);
        FitsAdd(Bytes(w[i..]), e.at - w[i].at, |e.payload|, ns1 - e.at, rate);
      }
    }
  }

  lemma {:induction false} PaceKeeps(w: seq<Sent>, ns: u64, w1: seq<Sent>, ns1: u64, rate: nat)
    requires Spaced(w, rate) && Reserved(w, ns, rate) && PaceStep(w, ns, w1, ns1, rate)
    ensures Spaced(w1, rate) && Reserved(w1, ns1, rate)
  {
    if !(w1 == w && ns1 == ns) {
      var e := w1[|w|];
      assert w1 == w + [e];
      AppendSpaced(w, ns, e, rate);
      AppendReserved(w, ns, e, ns1, rate);
    }
  }

  // ----- the engine takes only pace steps

  lemma {:induction false} CeilDiv(n: nat, r: nat)
    requires 0 < n && 0 < r
    ensures n <= (n + r - 1) / r * r
    ensures 1 <= (n + r - 1) / r <= n
  {
    CeilCore(n, r, (n + r - 1) / r, (n + r - 1) % r);
  }

  lemma {:induction false} CeilCore(n: nat, r: nat, q: int, t: nat)
    requires 0 < n && n + r - 1 == q * r + t && t < r
    ensures n <= q * r && 1 <= q <= n
  {
    MulMono(n + 1, q, r);
    MulMono(q, 0, r);
    MulMono(1, r, n);
    assert (n + 1) * r == n * r + r;
  }

  /** The reserved gap pays for the segment and stays below 536 seconds, even where the 64-bit sum
      before the division wraps. */
  lemma {:induction false} GapPays(length: u32, rate: Rate, limit: u64)
    requires 0 < length <= TCP_MSS && rate <= limit
    ensures Fits(length, PaceGap(length, rate), limit)
    ensures PaceGap(length, rate) <= LONGEST_GAP
  {
    var n := length * 1_000_000;
    if n + rate - 1 < 0x1_0000_0000_0000_0000 {
      CeilDiv(n, rate);
      Afford(n, (n + rate - 1) / rate, rate, limit);
    } else {
      SmallQuotient(n + rate - 1 - 0x1_0000_0000_0000_0000, rate);
    }
  }

  lemma {:induction false} Afford(n: nat, q: nat, rate: nat, limit: nat)
    requires n <= q * rate && rate <= limit
    ensures n <= q * limit
  {
    MulMono(rate, limit, q);
  }

  lemma {:induction false} SmallQuotient(w: nat, rate: nat)
    requires w < rate
    ensures w / rate == 0
  {
  }

  const LONGEST_GAP := 536_000_000

  /** The clock does not run into the end of its 64 bits, and the controller respects `limit`. */
  predicate PaceEnv(env: Env, limit: u64)
  {
    env.rate <= limit && env.now + LONGEST_GAP < 0x1_0000_0000_0000_0000
  }

  predicate PaceStepOf(c: Tcp, r: Tcp, limit: u64)
  {
    && PaceStep(c.snd.wire, c.clk.nextSend, r.snd.wire, r.clk.nextSend, limit)
    && r.ctl.rate <= limit
  }

  lemma {:induction false} SendPaces(d: Sender, s: Segment, k: Clock, rate: Rate, now: u64, limit: u64)
    requires s.length <= TCP_MSS && rate <= limit && now + LONGEST_GAP < 0x1_0000_0000_0000_0000
    requires s.length > 0 ==> k.nextSend <= now
    requires s.length > 0 ==> s.offset + s.length <= |d.tx|
    ensures PaceStep(d.wire, k.nextSend, Logged(d, s, now).wire, Paced(k, s.length, rate, now).nextSend, limit)
  {
    if s.length > 0 {
      GapPays(s.length, rate, limit);
      assert Paced(k, s.length, rate, now).nextSend == now + PaceGap(s.length, rate);
    }
  }

  lemma {:induction false} LossPaces(c: Tcp, env: Env, timeout: bool, limit: u64)
    requires SenderInv(c.snd) && PaceEnv(env, limit) && c.ctl.rate <= limit
    ensures PaceStepOf(c, Loss(c, env, timeout), limit)
  {
    var d, i := c.snd, Oldest(c.snd.pending);
    if i >= 0 {
      EdgesBound(d);
      OldestIsUna(d.isn, d.pending, d.una, d.next);
      assert SlotOk(d, d.pending[i]);
      if d.pending[i].length == 0 || c.clk.nextSend <= env.now {
        SendPaces(d, d.pending[i], c.clk, c.ctl.rate, env.now, limit);
      }
    }
  }

  lemma {:induction false} AcknowledgePaces(c: Tcp, a: u32, env: Env, limit: u64)
    requires SenderInv(c.snd) && PaceEnv(env, limit) && c.ctl.rate <= limit
    ensures PaceStepOf(c, Acknowledge(c, a, env), limit)
  {
    if a == c.snd.una {
      LossPaces(c.(ctl := c.ctl.(dupacks := Wrap32(c.ctl.dupacks + 1))), env, false, limit);
    }
  }

  lemma {:induction false} InputPaces(c: Tcp, g: Incoming, env: Env, limit: u64)
    requires ConnInv(c) && PaceEnv(env, limit) && c.ctl.rate <= limit
    ensures PaceStepOf(c, InputStep(c, g, env), limit)
  {
    if c.phase != SynSent { ProcessPaces(c, g, env, limit); }
  }

  lemma {:induction false} ProcessPaces(c: Tcp, g: Incoming, env: Env, limit: u64)
    requires SenderInv(c.snd) && PaceEnv(env, limit) && c.ctl.rate <= limit
    ensures PaceStepOf(c, Process(c, g, env), limit)
  {
    var c1 := c.(ctl := UpdateWindow(c.ctl, g));
    AcknowledgePaces(c1, g.acknowledgement, env, limit);
    ReceivePaces(c1, g);
    ReceivePaces(Acknowledge(c1, g.acknowledgement, env), g);
  }

  lemma {:induction false} ReceivePaces(c: Tcp, g: Incoming)
    ensures Receive(c, g).snd == c.snd && Receive(c, g).clk == c.clk && Receive(c, g).ctl == c.ctl
  {
  }

  lemma {:induction false} TickSendPaces(c: Tcp, env: Env, limit: u64)
    requires SenderInv(c.snd) && PaceEnv(env, limit) && c.ctl.rate <= limit && c.mss <= TCP_MSS
    ensures PaceStepOf(c, TickSend(c, env), limit)
  {
    var d := c.snd;
    if TickSend(c, env) != c {
      var s := NextSegment(d, c.mss, c.ctl.peerWindow - Wrap32(d.next - d.una));
      SendPaces(d, s, c.clk, c.ctl.rate, env.now, limit);
    }
  }

  lemma {:induction false} TickPaces(c: Tcp, env: Env, limit: u64)
    requires ConnInv(c) && PaceEnv(env, limit) && c.ctl.rate <= limit
    ensures PaceStepOf(c, TickStep(c, env), limit)
  {
    TickTimedPaces(c.(ackPending := c.ackPending && !env.ackOk), env, limit);
  }

  lemma {:induction false} TickTimedPaces(c: Tcp, env: Env, limit: u64)
    requires SenderInv(c.snd) && c.mss <= TCP_MSS && PaceEnv(env, limit) && c.ctl.rate <= limit
    ensures PaceStepOf(c, TickTimed(c, env), limit)
  {
    LossPaces(c, env, true, limit);
    SendPaces(c.snd, SynSegment(c.snd), c.clk, c.ctl.rate, env.now, limit);
    TickSendPaces(c, env, limit);
  }

  ghost predicate PaceInv(c: Tcp, limit: u64)
  {
    Spaced(c.snd.wire, limit) && Reserved(c.snd.wire, c.clk.nextSend, limit) && c.ctl.rate <= limit
  }

  lemma {:induction false} StepPaces(c: Tcp, e: Event, limit: u64)
    requires ConnInv(c) && PaceInv(c, limit) && PaceEnv(e.env, limit)
    ensures PaceInv(Step(c, e), limit)
  {
    match e {
      case Tick(env) => TickPaces(c, env, limit);
      case Input(g, env) => InputPaces(c, g, env, limit);
    }
    var r := Step(c, e);
    PaceKeeps(c.snd.wire, c.clk.nextSend, r.snd.wire, r.clk.nextSend, limit);
  }

  lemma {:induction false} RunPaces(c: Tcp, events: seq<Event>, limit: u64)
    requires ConnInv(c) && PaceInv(c, limit)
    requires forall i :: 0 <= i < |events| ==> PaceEnv(events[i].env, limit)
    ensures PaceInv(Run(c, events), limit)
  {
    if events != [] {
      var before := events[..|events| - 1];
      RunPaces(c, before, limit);
      RunConn(c, before);
      StepPaces(Run(c, before), events[|events| - 1], limit);
    }
  }

  // ----- from spacing to a bound on any stretch of time

  function BytesAt(e: Sent, from: int, to: int): nat { if from <= e.at <= to then |e.payload| else 0 }

  /** Data bytes handed to the link between the instants `from` and `to`. */
  function BytesIn(w: seq<Sent>, from: int, to: int): nat
  {
    if w == [] then 0 else BytesIn(w[..|w| - 1], from, to) + BytesAt(w[|w| - 1], from, to)
  }

  lemma {:induction false} BytesInAtMost(w: seq<Sent>, i: nat, from: int, to: int)
    requires i <= |w| && forall k :: 0 <= k < i ==> BytesAt(w[k], from, to) == 0
    ensures BytesIn(w, from, to) <= Bytes(w[i..])
  {
    if i < |w| {
      BytesInAtMost(w[..|w| - 1], i, from, to);
      assert w[..|w| - 1][i..] == w[i..][..|w| - 1 - i];
    } else if w != [] {
      BytesInAtMost(w[..|w| - 1], i - 1, from, to);
      assert w[..|w| - 1][i - 1..] == [];
    }
  }

  lemma {:induction false} BytesBefore(w: seq<Sent>, i: nat, j: nat, from: int, to: int, rate: nat)
    requires Spaced(w, rate) && i <= j < |w| && w[j].payload != [] && from <= w[j].at
    requires forall k :: 0 <= k < i ==> BytesAt(w[k], from, to) == 0
    ensures Fits(BytesIn(w[..j], from, to), w[j].at - from, rate)
    decreases j - i
  {
    if i == j || BytesAt(w[i], from, to) > 0 {
      BytesInAtMost(w[..j], i, from, to);
      assert w[..j][i..] == w[i..j];
      if i < j { assert SpacedPair(w, i, j, rate); FitsMore(Bytes(w[i..j]), w[j].at - w[i].at, w[j].at - from, rate); }
      else { assert rate * (w[j].at - from) >= 0; }
    } else {
      BytesBefore(w, i + 1, j, from, to, rate);
    }
  }

  lemma {:induction false} WindowBound(w: seq<Sent>, from: int, to: int, rate: nat)
    requires Spaced(w, rate) && from <= to
    requires forall k :: 0 <= k < |w| ==> |w[k].payload| <= TCP_MSS
    ensures Fits(Max(0, BytesIn(w, from, to) - TCP_MSS), to - from, rate)
  {
    if w == [] {
      FitsMore(0, 0, to - from, rate);
    } else {
      var v, e := w[..|w| - 1], w[|w| - 1];
      if BytesAt(e, from, to) == 0 {
        forall i, j | 0 <= i < j < |v| ensures SpacedPair(v, i, j, rate) {
          assert SpacedPair(w, i, j, rate) && v[i..j] == w[i..j];
        }
        WindowBound(v, from, to, rate);
      } else {
        BytesBefore(w, 0, |w| - 1, from, to, rate);
        FitsMore(BytesIn(v, from, to), e.at - from, to - from, rate);
        FitsFewer(Max(0, BytesIn(w, from, to) - TCP_MSS), BytesIn(v, from, to), to - from, rate);
      }
    }
  }

  /** Pacing: if the controller never grants more than `limit` bytes per second, then in every
      stretch of time of every run the data bytes sent, first or again, are at most what that
      rate allows plus one segment: late calls bank no credit. */
  lemma {:induction false} PacingBound(c: Tcp, events: seq<Event>, limit: u64, from: int, to: int)
    requires Initial(c) && c.ctl.rate <= limit && from <= to
    requires forall i :: 0 <= i < |events| ==> PaceEnv(events[i].env, limit)
    ensures BytesIn(Run(c, events).snd.wire, from, to) * 1_000_000
         <= limit * (to - from) + TCP_MSS * 1_000_000
  {
    InitialConn(c);
    RunPaces(c, events, limit);
    RunConn(c, events);
    var d := Run(c, events).snd;
    forall k | 0 <= k < |d.wire| ensures |d.wire[k].payload| <= TCP_MSS {
      assert SentOk(d.isn, d.tx, d.wire[k]);
    }
    WindowBound(d.wire, from, to, limit);
  }

  // ----- retransmission timeout (sections 2 and 3 of RFC 6298)

  predicate RttBounds(k: Clock) { k.srtt <= RTO_MAX && k.rttvar <= RTO_MAX }

  predicate ClockOk(c: Tcp)
  {
    RttBounds(c.clk) && (c.phase == Failed || 1_000_000 <= c.clk.rto <= RTO_MAX)
  }

  /** The timeout section 2 of RFC 6298 asks for: srtt + max(G, 4 * rttvar) with a clock granularity of
      one millisecond, held between one second and one minute. */
  function Timeout(srtt: nat, rttvar: nat): nat { Min(RTO_MAX, Max(1_000_000, srtt + Max(1000, 4 * rttvar))) }

  /** Below the cap nothing wraps: the estimator is RFC 6298's, rounded down, and so is the timeout. */
  lemma {:induction false} RttExact(k: Clock, sample: u32)
    requires RttBounds(k) && sample <= RTO_MAX
    ensures var r, rtt := RttSample(k, sample), Max(1, sample);
      && RttBounds(r)
      && (k.srtt == 0 ==> r.srtt == rtt && r.rttvar == rtt / 2)
      && (k.srtt > 0 ==> 8 * r.srtt <= 7 * k.srtt + rtt < 8 * r.srtt + 8)
      && (k.srtt > 0 ==> var err := Max(k.srtt - rtt, rtt - k.srtt);
                         4 * r.rttvar <= 3 * k.rttvar + err < 4 * r.rttvar + 4)
      && r.rto == Timeout(r.srtt, r.rttvar) && 1_000_000 <= r.rto <= RTO_MAX
  {
    var rtt := Max(1, sample);
    if k.srtt > 0 {
      assert Wrap32(3 * k.rttvar) == 3 * k.rttvar && Wrap32(7 * k.srtt) == 7 * k.srtt;
      var err := Max(k.srtt - rtt, rtt - k.srtt);
      Rounded(3 * k.rttvar + err, 4);
      Rounded(7 * k.srtt + rtt, 8);
      assert RttSample(k, sample).rttvar == (3 * k.rttvar + err) / 4;
      assert RttSample(k, sample).srtt == (7 * k.srtt + rtt) / 8;
    }
  }

  lemma {:induction false} Rounded(x: nat, m: nat)
    requires m > 0 && x <= 480_000_000
    ensures m * (x / m) <= x < m * (x / m) + m && Wrap32(x) == x
  {
  }

  lemma {:induction false} LossClock(c: Tcp, env: Env, timeout: bool)
    requires ClockOk(c)
    ensures ClockOk(Loss(c, env, timeout))
  {
  }

  lemma {:induction false} AckClockOk(c: Tcp, r: Scan, now: u64)
    requires ClockOk(c)
    ensures RttBounds(AckClock(c.clk, r, now))
    ensures c.phase == Failed || 1_000_000 <= AckClock(c.clk, r, now).rto <= RTO_MAX
  {
    if r.sample.Some? {
      RttExact(c.clk.(timer := now), Min(Wrap64(now - r.sample.value.sentUs), RTO_MAX));
    }
  }

  lemma {:induction false} AcknowledgeClock(c: Tcp, a: u32, env: Env)
    requires ClockOk(c)
    ensures ClockOk(Acknowledge(c, a, env))
  {
    if a == c.snd.una {
      LossClock(c.(ctl := c.ctl.(dupacks := Wrap32(c.ctl.dupacks + 1))), env, false);
    } else {
      AckClockOk(c, ScanSlots(c.snd.pending, a), env.now);
    }
  }

  lemma {:induction false} HandshakeClock(c: Tcp, g: Incoming, env: Env)
    requires ClockOk(c)
    ensures ClockOk(Handshake(c, g, env))
  {
    if |c.snd.pending| > 0 {
      RttExact(c.clk, Min(Wrap64(env.now - c.snd.pending[0].sentUs), RTO_MAX));
    }
  }

  lemma {:induction false} StepClock(c: Tcp, e: Event)
    requires ClockOk(c)
    ensures ClockOk(Step(c, e))
  {
    match e
    case Tick(env) => LossClock(c.(ackPending := c.ackPending && !env.ackOk), env, true);
    case Input(g, env) =>
      if c.phase == SynSent { HandshakeClock(c, g, env); } else { ProcessClock(c, g, env); }
  }

  lemma {:induction false} ProcessClock(c: Tcp, g: Incoming, env: Env)
    requires ClockOk(c)
    ensures ClockOk(Process(c, g, env))
  {
    AcknowledgeClock(c.(ctl := UpdateWindow(c.ctl, g)), g.acknowledgement, env);
  }

  lemma {:induction false} RunClock(c: Tcp, events: seq<Event>)
    requires ClockOk(c)
    ensures ClockOk(Run(c, events))
  {
    if events != [] {
      RunClock(c, events[..|events| - 1]);
      StepClock(Run(c, events[..|events| - 1]), events[|events| - 1]);
    }
  }

  /** The timeout of every live reachable state lies between one second and one minute. */
  lemma {:induction false} TimeoutRange(c: Tcp, events: seq<Event>)
    requires Initial(c)
    ensures var r := Run(c, events); r.phase != Failed ==> 1_000_000 <= r.clk.rto <= RTO_MAX
  {
    assert ClockOk(c);
    RunClock(c, events);
  }

  lemma {:induction false} ScanRetransmitted(p: seq<Segment>, a: u32, i: nat)
    requires i < |p| && p[i].used && Before(p[i].sequence, a) && p[i].retries != 0
    ensures ScanSlots(p, a).retransmitted
  {
    if i < |p| - 1 { ScanRetransmitted(p[..|p| - 1], a, i); }
  }

  /** The estimator has taken a sample. */
  predicate Sampled(k: Clock, l: Clock) { l.srtt != k.srtt || l.rttvar != k.rttvar }

  /** Position `x` of the stream is newly covered by moving the left edge from `d` to `e`. */
  predicate Newly(d: Sender, e: Sender, x: int) { Off(d.isn, d.una) <= x < Off(d.isn, e.una) }

  /** An acknowledgement that is sampled covers something, and only what was sent exactly once. */
  lemma {:induction false} AckKarn(c: Tcp, a: u32, env: Env)
    requires SenderInv(c.snd) && WireInv(c.snd) && c.snd.una != c.snd.isn
    requires Sampled(c.clk, Acknowledge(c, a, env).clk)
    ensures var e := Acknowledge(c, a, env).snd;
      && Off(c.snd.isn, c.snd.una) < Off(c.snd.isn, e.una)
      && forall x :: Newly(c.snd, e, x) ==> Times(c.snd.isn, c.snd.wire, x) == 1
  {
    var d := c.snd;
    LossKeepsRtt(c.(ctl := c.ctl.(dupacks := Wrap32(c.ctl.dupacks + 1))), env, false);
    assert a != d.una && !Before(a, d.una) && !Before(d.next, a);
    AdvanceRange(d, a);
    assert Acknowledge(c, a, env).snd.una == a && !ScanSlots(d.pending, a).retransmitted;
    forall x | Newly(d, Acknowledge(c, a, env).snd, x) ensures Times(d.isn, d.wire, x) == 1 { SentOnce(d, a, x); }
  }

  lemma {:induction false} LossKeepsRtt(c: Tcp, env: Env, timeout: bool)
    ensures !Sampled(c.clk, Loss(c, env, timeout).clk)
  {
  }

  lemma {:induction false} SentOnce(d: Sender, a: u32, x: int)
    requires SenderInv(d) && WireInv(d) && !ScanSlots(d.pending, a).retransmitted
    requires Off(d.isn, d.una) <= x < Off(d.isn, a) <= Off(d.isn, d.next)
    ensures Times(d.isn, d.wire, x) == 1
  {
    EdgesBound(d);
    assert Covered(d.isn, d.pending, x);
    var i :| 0 <= i < |d.pending| && Covers(d.isn, d.pending[i], x);
    assert Inside(d.isn, d.pending[i], Off(d.isn, d.una), Off(d.isn, d.next));
    BeforeIsOrder(d.isn, d.pending[i].sequence, a);
    if d.pending[i].retries != 0 { ScanRetransmitted(d.pending, a, i); }
  }

  /** The handshake samples only a SYN that was sent exactly once. */
  lemma {:induction false} HandshakeKarn(c: Tcp, g: Incoming, env: Env)
    requires SenderInv(c.snd) && WireInv(c.snd) && c.snd.una == c.snd.isn
    requires Sampled(c.clk, Handshake(c, g, env).clk)
    ensures var e := Handshake(c, g, env).snd;
      && Off(c.snd.isn, c.snd.una) < Off(c.snd.isn, e.una)
      && forall x :: Newly(c.snd, e, x) ==> Times(c.snd.isn, c.snd.wire, x) == 1
  {
    var d := c.snd;
    assert d.next == Wrap32(d.isn + 1) == Handshake(c, g, env).snd.una && d.pending[0].retries == 0;
    OffAdd(d.isn, d.isn, 1);
    assert Covered(d.isn, d.pending, 0);
    var i :| 0 <= i < |d.pending| && Covers(d.isn, d.pending[i], 0);
    assert i == 0;
  }

  /** One event samples only what was sent exactly once. */
  lemma {:induction false} StepKarn(c: Tcp, e: Event)
    requires ConnInv(c) && Sampled(c.clk, Step(c, e).clk)
    ensures var s := Step(c, e).snd;
      && Off(c.snd.isn, c.snd.una) < Off(c.snd.isn, s.una)
      && forall x :: Newly(c.snd, s, x) ==> Times(c.snd.isn, c.snd.wire, x) == 1
  {
    match e
    case Tick(env) => TickKeepsRtt(c, env); assert false;
    case Input(g, env) =>
      if c.phase == SynSent {
        HandshakeKarn(c, g, env);
      } else {
        assert InputStep(c, g, env) == Process(c, g, env);
        ProcessKarn(c, g, env);
      }
  }

  lemma {:induction false} TickKeepsRtt(c: Tcp, env: Env)
    ensures !Sampled(c.clk, TickStep(c, env).clk)
  {
    LossKeepsRtt(c.(ackPending := c.ackPending && !env.ackOk), env, true);
  }

  lemma {:induction false} ProcessKarn(c: Tcp, g: Incoming, env: Env)
    requires SenderInv(c.snd) && WireInv(c.snd) && c.snd.una != c.snd.isn
    requires Sampled(c.clk, Process(c, g, env).clk)
    ensures var s := Process(c, g, env).snd;
      && Off(c.snd.isn, c.snd.una) < Off(c.snd.isn, s.una)
      && forall x :: Newly(c.snd, s, x) ==> Times(c.snd.isn, c.snd.wire, x) == 1
  {
    var c1 := c.(ctl := UpdateWindow(c.ctl, g));
    ReceivePaces(c1, g);
    ReceivePaces(Acknowledge(c1, g.acknowledgement, env), g);
    AckKarn(c1, g.acknowledgement, env);
  }

  /** Karn's rule over every run: when an event changes the estimator, it is an acknowledgement, of the
      SYN or of later numbers, and everything it newly covers had been transmitted exactly once. */
  lemma {:induction false} Karn(c: Tcp, events: seq<Event>, e: Event)
    requires Initial(c) && Sampled(Run(c, events).clk, Step(Run(c, events), e).clk)
    ensures var r, s := Run(c, events), Step(Run(c, events), e);
      && e.Input? && Off(r.snd.isn, r.snd.una) < Off(r.snd.isn, s.snd.una)
      && forall x :: Newly(r.snd, s.snd, x) ==> Times(r.snd.isn, r.snd.wire, x) == 1
  {
    InitialConn(c);
    RunConn(c, events);
    if e.Tick? { TickKeepsRtt(Run(c, events), e.env); }
    StepKarn(Run(c, events), e);
  }
}
