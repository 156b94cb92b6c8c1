/** How late a clock pacing can take: within the longest gap of the end of its 64 bits the next
    transmission is scheduled in the past, and a run sends twice what the rate allows. */
module TcpClock {
  import opened Words
  import opened TcpModel
  import opened TcpTimers
  import opened TcpScenario

  /** The next transmission after a full segment at one byte per second would be past the end. */
  predicate Late(t: u64) { t + LONGEST_GAP >= 0x1_0000_0000_0000_0000 }

  /** A file of two full segments. */
  function TwoSegments(): (s: seq<u8>)
    ensures |s| == 2 * TCP_MSS
  {
    seq(2 * TCP_MSS, _ => 0)
  }

  /** The first segment is out at time `t`, and the next may follow at once. */
  ghost predicate HalfSent(r: Tcp, t: u64)
  {
    && r.phase == Established && r.mss == TCP_MSS && r.ctl.peerWindow == 2000 && r.ctl.cwnd == 10 && r.ctl.rate == 1
    && r.clk.started == t && r.clk.timer == t && r.clk.nextSend <= t && ClockOk(r)
    && r.snd.isn == 0 && r.snd.una == 1 && r.snd.next == 537 && |r.snd.tx| == 1072 && r.snd.txOffset == 536 && !r.snd.ownFin
    && !r.rcv.fin && Only(r.snd.pending, Segment(1, 0, 536, t, ACK_PSH, 0, true))
    && BytesIn(r.snd.wire, t, t) == 536
  }

  lemma {:induction false} NothingIn(w: seq<Sent>, from: int, to: int)
    requires forall k :: 0 <= k < |w| ==> w[k].payload == []
    ensures BytesIn(w, from, to) == 0
  {
    if w != [] { NothingIn(w[..|w| - 1], from, to); }
  }

  lemma {:induction false} FirstHalf(r: Tcp, t: u64)
    requires Late(t) && Quiet(r, TwoSegments(), t, 0, 2000) && r.clk.nextSend == 0
    requires forall k :: 0 <= k < |r.snd.wire| ==> r.snd.wire[k].payload == []
    ensures HalfSent(Step(r, Tick(Clocked(t))), t)
  {
    SendTick(r, TwoSegments(), t, 0, 2000, Clocked(t));
    StepClock(r, Tick(Clocked(t)));
    NothingIn(r.snd.wire, t, t);
    AllFree(r.snd.pending);
    assert NextSegment(r.snd, TCP_MSS, 2000) == Segment(1, 0, 536, 0, ACK_PSH, 0, true);
    assert PaceGap(536, 1) == LONGEST_GAP;
  }

  lemma {:induction false} OneInflight(p: seq<Segment>, n: nat)
    requires 1 <= n <= |p| && p[0].used && forall i :: 1 <= i < |p| ==> !p[i].used
    ensures Inflight(p[..n]) == 1
  {
    if n > 1 {
      OneInflight(p, n - 1);
      assert p[..n][..n - 1] == p[..n - 1];
    } else {
      assert p[..1][..0] == [];
    }
  }

  lemma {:induction false} SecondHalf(r: Tcp, t: u64)
    requires HalfSent(r, t)
    ensures BytesIn(Step(r, Tick(Clocked(t))).snd.wire, t, t) == 1072
  {
    var p, env := r.snd.pending, Clocked(t);
    OnlyOldest(p, p[0]);
    OneInflight(p, |p|);
    assert p[..|p|] == p;
    assert FreeSlot(p, 1) == 1 && FreeSlot(p, 0) == 1;
    var c := r.(ackPending := r.ackPending && !env.ackOk);
    var s := NextSegment(r.snd, TCP_MSS, 2000 - 536);
    assert TickStep(r, env) == TickTimed(c, env) == TickSend(c, env) == SendNew(c, s, 1, env);
    assert s == Segment(537, 536, 536, 0, ACK_PSH, 0, true);
    var w, e := r.snd.wire, Sent(537, ACK_PSH, Slice(r.snd.tx, 536, 536), t);
    assert SendNew(c, s, 1, env).snd.wire == w + [e] && (w + [e])[..|w|] == w;
  }

  /** From then on: two segments in one instant, although the rate is never more than one. */
  lemma {:induction false} ClockWraps(t: u64) returns (c: Tcp, events: seq<Event>)
    requires Late(t)
    ensures Initial(c) && c.ctl.rate <= 1 && forall i :: 0 <= i < |events| ==> events[i].env.rate <= 1 && events[i].env.now == t
    ensures BytesIn(Run(c, events).snd.wire, t, t) == 2 * TCP_MSS
  {
    c, events := Opened(TwoSegments(), t, 2000);
    FirstHalf(Run(c, events), t);
    events := Then(c, events, Tick(Clocked(t)));
    SecondHalf(Run(c, events), t);
    events := Then(c, events, Tick(Clocked(t)));
  }

  /** Within the limits on rate and clock. */
  ghost predicate Within(c: Tcp, events: seq<Event>, limit: u64, last: u64)
  {
    && Initial(c) && c.ctl.rate <= limit
    && forall i :: 0 <= i < |events| ==> events[i].env.rate <= limit && events[i].env.now <= last
  }

  /** The data bytes sent from `from` to `to` are within the limit plus one segment. */
  predicate Afforded(w: seq<Sent>, from: int, to: int, limit: nat)
  {
    BytesIn(w, from, to) * 1_000_000 <= limit * (to - from) + TCP_MSS * 1_000_000
  }

  ghost predicate RunAfforded(c: Tcp, events: seq<Event>, limit: u64, last: u64, from: int, to: int)
  {
    Within(c, events, limit, last) && from <= to ==> Afforded(Run(c, events).snd.wire, from, to, limit)
  }

  /** Every run whose clock does not pass `last` is paced, whatever the rate limit and the stretch of time. */
  ghost predicate PacedUpTo(last: u64)
  {
    forall c: Tcp, events: seq<Event>, limit: u64, from: int, to: int :: RunAfforded(c, events, limit, last, from, to)
  }

  lemma {:induction false} EarlyAfforded(c: Tcp, events: seq<Event>, limit: u64, last: u64, from: int, to: int)
    requires !Late(last)
    ensures RunAfforded(c, events, limit, last, from, to)
  {
    if Within(c, events, limit, last) && from <= to { PacingBound(c, events, limit, from, to); }
  }

  lemma {:induction false} LateBreaks(last: u64)
    requires Late(last)
    ensures !PacedUpTo(last)
  {
    var c, events := ClockWraps(last);
    assert Within(c, events, 1, last);
    assert !RunAfforded(c, events, 1, last, last, last);
  }

  /** Pacing is kept up to a clock value exactly if the longest gap after it does not wrap. */
  lemma {:induction false} PacingExactly(last: u64)
    ensures PacedUpTo(last) <==> !Late(last)
  {
    if Late(last) {
      LateBreaks(last);
    } else {
      forall c: Tcp, events: seq<Event>, limit: u64, from: int, to: int
        ensures RunAfforded(c, events, limit, last, from, to)
      {
        EarlyAfforded(c, events, limit, last, from, to);
      }
    }
  }
}
