/** What the link has seen: every transmission carries the right bytes of the file at its own
    sequence number, and no sequence number is sent more than nine times. */
module TcpWire {
  import opened Words
  import opened TcpModel
  import opened TcpSender
  import opened TcpSteps

  function SentSize(e: Sent): nat
  {
    |e.payload| + if Syn(e.flags) || Fin(e.flags) then 1 else 0
  }

  predicate SentCovers(isn: u32, e: Sent, x: int)
  {
    Off(isn, e.sequence) <= x < Off(isn, e.sequence) + SentSize(e)
  }

  /** A transmission is the SYN, a stretch of the file at its own place, or the FIN after it. */
  predicate SentOk(isn: u32, tx: seq<u8>, e: Sent)
  {
    var x := Off(isn, e.sequence);
    || (e.flags == SYN && e.payload == [] && x == 0)
    || (e.flags == ACK_PSH && 0 < |e.payload| <= TCP_MSS && 1 <= x && x - 1 + |e.payload| <= |tx|
        && e.payload == tx[x - 1..x - 1 + |e.payload|])
    || (e.flags == ACK_FIN && e.payload == [] && x == 1 + |tx|)
  }

  /** How often position `x` of the outgoing stream has been transmitted. */
  function Times(isn: u32, w: seq<Sent>, x: int): nat
  {
    if w == [] then 0
    else Times(isn, w[..|w| - 1], x) + if SentCovers(isn, w[|w| - 1], x) then 1 else 0
  }

  ghost predicate CountInv(isn: u32, p: seq<Segment>, w: seq<Sent>, n: nat)
  {
    && (forall x :: Times(isn, w, x) <= 9)
    && (forall x :: x >= n ==> Times(isn, w, x) == 0)
    && (forall i, x :: 0 <= i < |p| && Covers(isn, p[i], x) ==> Times(isn, w, x) == p[i].retries + 1)
  }

  ghost predicate WireInv(d: Sender)
  {
    && (forall j :: 0 <= j < |d.wire| ==> SentOk(d.isn, d.tx, d.wire[j]))
    && CountInv(d.isn, d.pending, d.wire, Off(d.isn, d.next))
  }

  lemma {:induction false} TimesAppend(isn: u32, w: seq<Sent>, e: Sent, x: int)
    ensures Times(isn, w + [e], x) == Times(isn, w, x) + if SentCovers(isn, e, x) then 1 else 0
  {
    assert (w + [e])[..|w|] == w;
  }

  /** The record of sending slot `s`. */
  function Record(d: Sender, s: Segment, now: u64): Sent
  {
    Sent(s.sequence, s.flags, Slice(d.tx, s.offset, s.length), now)
  }

  /** Sending a pending slot puts exactly its stretch of the stream on the wire. */
  lemma {:induction false} RecordOk(d: Sender, s: Segment, now: u64)
    requires Edges(d) && SlotOk(d, s) && s.used
    ensures SentOk(d.isn, d.tx, Record(d, s, now))
    ensures SentSize(Record(d, s, now)) == Size(s)
  {
  }

  lemma {:induction false} AdvanceWire(d: Sender, a: u32)
    requires SenderInv(d) && WireInv(d) && Off(d.isn, d.una) <= Off(d.isn, a) <= Off(d.isn, d.next)
    ensures WireInv(Advance(d, a))
  {
    var isn, p, q, u, n := d.isn, d.pending, AckAll(d.pending, a), Off(d.isn, d.una), Off(d.isn, d.next);
    forall i, x | 0 <= i < |q| && Covers(isn, q[i], x) ensures Times(isn, d.wire, x) == q[i].retries + 1 {
      assert Inside(isn, p[i], u, n);
      AckSlotRange(isn, p[i], a, u, n);
      assert Covers(isn, p[i], x) && p[i].retries == q[i].retries;
    }
  }

  lemma {:induction false} ResentWire(d: Sender, i: nat, now: u64)
    requires SenderInv(d) && WireInv(d) && i < |d.pending| && d.pending[i].used && d.pending[i].retries < 8
    ensures WireInv(Resent(d, i, now))
  {
    var isn, p, q, s := d.isn, d.pending, Resent(d, i, now).pending, d.pending[i];
    var e := Record(d, s, now);
    assert SlotOk(d, s) && Inside(isn, s, Off(isn, d.una), Off(isn, d.next));
    RecordOk(d, s, now);
    forall x
      ensures Times(isn, d.wire + [e], x) <= 9
      ensures x >= Off(isn, d.next) ==> Times(isn, d.wire + [e], x) == 0
    {
      TimesAppend(isn, d.wire, e, x);
      if SentCovers(isn, e, x) { assert Covers(isn, p[i], x); }
    }
    forall k, x | 0 <= k < |q| && Covers(isn, q[k], x)
      ensures Times(isn, d.wire + [e], x) == q[k].retries + 1
    {
      TimesAppend(isn, d.wire, e, x);
      assert Covers(isn, p[k], x);
      if k < i { assert Apart(isn, p[k], p[i]); }
      if i < k { assert Apart(isn, p[i], p[k]); }
    }
  }

  lemma {:induction false} ExtendCount(isn: u32, p: seq<Segment>, k: nat, t: Segment, w: seq<Sent>, e: Sent, u: nat, n: nat)
    requires CountInv(isn, p, w, n) && k < |p| && t.retries == 0
    requires forall i :: 0 <= i < |p| ==> Inside(isn, p[i], u, n)
    requires Lo(isn, t) == n && e.sequence == t.sequence && SentSize(e) == Size(t)
    ensures CountInv(isn, p[k := t], w + [e], n + Size(t))
  {
    var q := p[k := t];
    forall x
      ensures Times(isn, w + [e], x) <= 9
      ensures x >= n + Size(t) ==> Times(isn, w + [e], x) == 0
    {
      TimesAppend(isn, w, e, x);
    }
    forall i, x | 0 <= i < |q| && Covers(isn, q[i], x)
      ensures Times(isn, w + [e], x) == q[i].retries + 1
    {
      TimesAppend(isn, w, e, x);
      if i != k { assert Covers(isn, p[i], x) && Inside(isn, p[i], u, n); }
    }
  }

  lemma {:induction false} ExtendedWire(d: Sender, s: Segment, k: nat, now: u64)
    requires SenderInv(d) && WireInv(d) && Sendable(d, s) && k < |d.pending| && !d.pending[k].used
    requires if d.next == d.isn then k == 0 else d.una != d.isn
    ensures WireInv(Extended(d, s, k, now))
  {
    var f, t, e := Extended(d, s, k, now), s.(sentUs := now), Record(d, s, now);
    ExtendedEdges(d, s, k, now);
    ExtendedFields(d, s, k, now);
    SentSlotOk(d, s, k, now);
    RecordOk(f, t, now);
    assert e == Record(f, t, now);
    ExtendCount(d.isn, d.pending, k, t, d.wire, e, Off(d.isn, d.una), Off(d.isn, d.next));
    WirePush(d, f, e);
  }

  lemma {:induction false} WirePush(d: Sender, f: Sender, e: Sent)
    requires WireInv(d) && f.isn == d.isn && f.tx == d.tx && f.wire == d.wire + [e] && SentOk(f.isn, f.tx, e)
    requires CountInv(f.isn, f.pending, f.wire, Off(f.isn, f.next))
    ensures WireInv(f)
  {
    forall j | 0 <= j < |f.wire| ensures SentOk(f.isn, f.tx, f.wire[j]) {
      assert j < |d.wire| ==> f.wire[j] == d.wire[j];
    }
  }

  /** The file's byte at the probe's sequence number. */
  predicate ProbeRight(d: Sender)
  {
    var (sequence, byte) := Probe(d);
    1 <= Off(d.isn, sequence) <= |d.tx| && byte == d.tx[Off(d.isn, sequence) - 1]
  }

  /** A zero-window probe carries the right byte exactly when some data and not yet the FIN has been
      sent: before any data `next - 1` is the SYN's number, after the FIN it is the FIN's own. */
  lemma {:induction false} ProbeByte(d: Sender)
    requires Edges(d) && d.next != d.isn
    ensures ProbeRight(d) <==> 0 < d.txOffset && !d.ownFin
    ensures d.txOffset == 0 && !d.ownFin ==> Probe(d) == (d.isn, 0)
    ensures d.ownFin ==> Off(d.isn, Probe(d).0) == 1 + |d.tx|
  {
    if Off(d.isn, d.next) == 0 { OffInjective(d.isn, d.next, d.isn); }
    OffPred(d.isn, d.next);
    if d.txOffset == 0 && !d.ownFin { OffInjective(d.isn, Wrap32(d.next - 1), d.isn); }
  }
}
