/** Each elementary change of the sender (acknowledge, retransmit, send new) keeps its invariant. */
module TcpSteps {
  import opened Words
  import opened TcpModel
  import opened TcpSender

  // ----- a cumulative ACK, slot by slot

  /** What an ACK at position `at` does to one slot: drop, trim to exactly `at`, or nothing. */
  lemma {:induction false} AckSlotRange(isn: u32, s: Segment, a: u32, u: nat, n: nat)
    requires Inside(isn, s, u, n) && u <= Off(isn, a) <= n < 0x8000_0000
    ensures var t, at := AckSlot(s, a), Off(isn, a);
      if !s.used then t == s && AckBytes(s, a) == 0
      else if Hi(isn, s) <= at then t == s.(used := false) && AckBytes(s, a) == s.length
      else if Lo(isn, s) < at
      then t.used && Lo(isn, t) == at && t.offset == Wrap32(s.offset + at - Lo(isn, s)) &&
           t.length == s.length - (at - Lo(isn, s)) && AckBytes(s, a) == at - Lo(isn, s)
      else t == s && AckBytes(s, a) == 0
    ensures Hi(isn, s) > Off(isn, a) ==> Hi(isn, AckSlot(s, a)) == Hi(isn, s) && AckSlot(s, a).flags == s.flags
    ensures AckTakesFin(s, a) <==> s.used && Hi(isn, s) <= Off(isn, a) && Fin(s.flags)
  {
    if s.used {
      BeforeIsOrder(isn, s.sequence, a);
      if Lo(isn, s) < Off(isn, a) { AckEnd(s.sequence, a); }
    }
  }

  lemma {:induction false} AckEnd(x: u32, a: u32)
    ensures Wrap32(x + Wrap32(a - x)) == a
  {
  }

  /** After an ACK at `a`, the slots tile what is left. */
  lemma {:induction false} AckTiles(isn: u32, p: seq<Segment>, a: u32, u: nat, n: nat)
    requires Tiles(isn, p, u, n) && u <= Off(isn, a) <= n < 0x8000_0000
    ensures Tiles(isn, AckAll(p, a), Off(isn, a), n)
  {
    var q, at := AckAll(p, a), Off(isn, a);
    forall i | 0 <= i < |p| ensures Inside(isn, q[i], at, n) {
      assert Inside(isn, p[i], u, n);
      AckSlotRange(isn, p[i], a, u, n);
    }
    forall i, j | 0 <= i < j < |q| ensures Apart(isn, q[i], q[j]) {
      assert Apart(isn, p[i], p[j]) && Inside(isn, p[i], u, n) && Inside(isn, p[j], u, n);
      AckSlotRange(isn, p[i], a, u, n);
      AckSlotRange(isn, p[j], a, u, n);
    }
    forall x | at <= x < n ensures Covered(isn, q, x) {
      assert Covered(isn, p, x);
      var i :| 0 <= i < |p| && Covers(isn, p[i], x);
      assert Inside(isn, p[i], u, n);
      AckSlotRange(isn, p[i], a, u, n);
      assert Covers(isn, q[i], x);
    }
  }

  // ----- totals of the ACK loop

  function SumAck(p: seq<Segment>, a: u32): nat
  {
    if p == [] then 0 else SumAck(p[..|p| - 1], a) + AckBytes(p[|p| - 1], a)
  }

  predicate PayloadOnly(p: seq<Segment>)
  {
    forall i :: 0 <= i < |p| && p[i].used ==> Size(p[i]) == p[i].length
  }

  /** Acknowledged payload is exactly what leaves the slots. */
  lemma {:induction false} AckShrinks(p: seq<Segment>, a: u32)
    requires PayloadOnly(p)
    ensures SumSize(AckAll(p, a)) + SumAck(p, a) == SumSize(p)
  {
    if p != [] {
      AckShrinks(p[..|p| - 1], a);
      assert AckAll(p, a)[..|p| - 1] == AckAll(p[..|p| - 1], a);
    }
  }

  lemma {:induction false} ScanTotals(p: seq<Segment>, a: u32)
    requires SumAck(p, a) < 0x1_0000_0000
    ensures ScanSlots(p, a).bytes == SumAck(p, a)
  {
    if p != [] {
      ScanTotals(p[..|p| - 1], a);
      WrapSmall(SumAck(p, a));
    }
  }

  lemma {:induction false} ScanFin(p: seq<Segment>, a: u32)
    ensures ScanSlots(p, a).fin <==> exists i :: 0 <= i < |p| && AckTakesFin(p[i], a)
  {
    if p != [] {
      var q := p[..|p| - 1];
      ScanFin(q, a);
      assert forall i :: 0 <= i < |q| ==> AckTakesFin(q[i], a) == AckTakesFin(p[i], a);
    }
  }

  lemma {:induction false} SumAckZero(p: seq<Segment>, a: u32)
    requires forall i :: 0 <= i < |p| ==> AckBytes(p[i], a) == 0
    ensures SumAck(p, a) == 0
  {
    if p != [] { SumAckZero(p[..|p| - 1], a); }
  }

  // ----- Advance

  /** While data is outstanding, the ACK loop counts every byte between the old and new edge. */
  lemma {:induction false} AdvanceCountsData(d: Sender, a: u32)
    requires SenderInv(d) && !d.ownFin && 0 < Off(d.isn, d.una) <= Off(d.isn, a) <= Off(d.isn, d.next)
    ensures ScanSlots(d.pending, a).bytes == Off(d.isn, a) - Off(d.isn, d.una)
    ensures !ScanSlots(d.pending, a).fin
  {
    var p, u, n := d.pending, Off(d.isn, d.una), Off(d.isn, d.next);
    forall i | 0 <= i < |p| && p[i].used ensures Size(p[i]) == p[i].length && !Fin(p[i].flags) {
      assert SlotOk(d, p[i]) && Inside(d.isn, p[i], u, n);
    }
    TilesSum(d.isn, p, u, n);
    AckTiles(d.isn, p, a, u, n);
    TilesSum(d.isn, AckAll(p, a), Off(d.isn, a), n);
    AckShrinks(p, a);
    ScanTotals(p, a);
    ScanFin(p, a);
  }

  /** Once the FIN is out, the only thing left to acknowledge is the FIN. */
  lemma {:induction false} OnlyFinLeft(d: Sender, a: u32)
    requires Edges(d) && d.ownFin && Off(d.isn, d.una) < Off(d.isn, a) <= Off(d.isn, d.next)
    ensures a == d.next && Off(d.isn, d.una) == 1 + |d.tx| && Off(d.isn, a) == 2 + |d.tx| && !d.ownFinAcked
  {
    OffInjective(d.isn, a, d.next);
  }

  lemma {:induction false} AdvanceCountsFin(d: Sender, a: u32)
    requires SenderInv(d) && d.ownFin && Off(d.isn, d.una) < Off(d.isn, a) <= Off(d.isn, d.next)
    ensures ScanSlots(d.pending, a).bytes == 0 && ScanSlots(d.pending, a).fin
  {
    OnlyFinLeft(d, a);
    var p, u, n := d.pending, Off(d.isn, d.una), Off(d.isn, d.next);
    forall i | 0 <= i < |p|
      ensures AckBytes(p[i], a) == 0
      ensures p[i].used ==> AckTakesFin(p[i], a)
    {
      assert SlotOk(d, p[i]) && Inside(d.isn, p[i], u, n);
      AckSlotRange(d.isn, p[i], a, u, n);
    }
    SumAckZero(p, a);
    ScanTotals(p, a);
    ScanFin(p, a);
    var k := FirstSlot(d.isn, p, d.una, d.next);
  }

  lemma {:induction false} AckSlotOk(d: Sender, s: Segment, a: u32, u: nat, n: nat)
    requires SlotOk(d, s) && Inside(d.isn, s, u, n) && u <= Off(d.isn, a) <= n < 0x8000_0000
    ensures SlotOk(d, AckSlot(s, a))
  {
    AckSlotRange(d.isn, s, a, u, n);
    if s.used && Lo(d.isn, s) < Off(d.isn, a) < Hi(d.isn, s) {
      assert s.flags == ACK_PSH && s.length == Size(s);
      WrapSmall(s.offset + Off(d.isn, a) - Lo(d.isn, s));
    }
  }

  lemma {:induction false} AdvanceSlots(d: Sender, a: u32)
    requires SenderInv(d) && Off(d.isn, d.una) <= Off(d.isn, a) <= Off(d.isn, d.next)
    ensures forall i :: 0 <= i < |d.pending| ==> SlotOk(d, AckSlot(d.pending[i], a))
  {
    var p, u, n := d.pending, Off(d.isn, d.una), Off(d.isn, d.next);
    forall i | 0 <= i < |p| ensures SlotOk(d, AckSlot(p[i], a)) {
      assert SlotOk(d, p[i]) && Inside(d.isn, p[i], u, n);
      AckSlotOk(d, p[i], a, u, n);
    }
  }

  lemma {:induction false} AdvanceEdges(d: Sender, a: u32)
    requires SenderInv(d) && 0 < Off(d.isn, d.una) < Off(d.isn, a) <= Off(d.isn, d.next)
    ensures Edges(Advance(d, a))
  {
    var e, r := Advance(d, a), ScanSlots(d.pending, a);
    if d.ownFin {
      OnlyFinLeft(d, a);
      AdvanceCountsFin(d, a);
      assert e.delivered == d.delivered && e.ownFinAcked;
    } else {
      AdvanceCountsData(d, a);
      assert d.delivered + r.bytes == Off(d.isn, a) - 1;
      assert e.delivered == d.delivered + r.bytes && e.ownFinAcked == d.ownFinAcked;
    }
  }

  lemma {:induction false} AdvanceRest(d: Sender, a: u32)
    requires SenderInv(d) && 0 < Off(d.isn, d.una) < Off(d.isn, a) <= Off(d.isn, d.next)
    ensures SlotsOk(Advance(d, a)) && LoneSyn(Advance(d, a)) && Tiled(Advance(d, a))
  {
    AdvanceSlots(d, a);
    AckTiles(d.isn, d.pending, a, Off(d.isn, d.una), Off(d.isn, d.next));
    SlotsGrow(d, Advance(d, a), AckAll(d.pending, a));
    assert a != d.isn;
  }

  lemma {:induction false} SlotsGrow(d: Sender, e: Sender, p: seq<Segment>)
    requires e.isn == d.isn && e.tx == d.tx && d.txOffset <= e.txOffset && (d.ownFin ==> e.ownFin)
    requires forall i :: 0 <= i < |p| ==> SlotOk(d, p[i])
    ensures forall i :: 0 <= i < |p| ==> SlotOk(e, p[i])
  {
    forall i | 0 <= i < |p| ensures SlotOk(e, p[i]) { SlotOkGrows(d, e, p[i]); }
  }

  /** A cumulative (possibly partial) ACK keeps the sender invariant. */
  lemma {:induction false} AdvanceKeeps(d: Sender, a: u32)
    requires SenderInv(d) && 0 < Off(d.isn, d.una) < Off(d.isn, a) <= Off(d.isn, d.next)
    ensures SenderInv(Advance(d, a))
  {
    AdvanceEdges(d, a);
    AdvanceRest(d, a);
  }

  // ----- Resent

  lemma {:induction false} ResentKeeps(d: Sender, i: nat, now: u64)
    requires SenderInv(d) && i < |d.pending| && d.pending[i].used && d.pending[i].retries < 8
    ensures SenderInv(Resent(d, i, now))
  {
    var e := Resent(d, i, now);
    var p, q := d.pending, e.pending;
    forall k | 0 <= k < |q| ensures SlotOk(e, q[k]) { assert SlotOk(d, p[k]); }
    SameShape(d.isn, p, q, Off(d.isn, d.una), Off(d.isn, d.next));
  }

  predicate SameRange(s: Segment, t: Segment)
  {
    s.used == t.used && s.sequence == t.sequence && Size(s) == Size(t)
  }

  /** Tiling depends only on where the used slots lie. */
  lemma {:induction false} SameShape(isn: u32, p: seq<Segment>, q: seq<Segment>, u: nat, n: nat)
    requires Tiles(isn, p, u, n) && |p| == |q|
    requires forall k :: 0 <= k < |p| ==> SameRange(p[k], q[k])
    ensures Tiles(isn, q, u, n)
  {
    forall k | 0 <= k < |q| ensures Inside(isn, q[k], u, n) {
      assert Inside(isn, p[k], u, n) && SameRange(p[k], q[k]);
    }
    forall i, j | 0 <= i < j < |q| ensures Apart(isn, q[i], q[j]) {
      assert Apart(isn, p[i], p[j]) && SameRange(p[i], q[i]) && SameRange(p[j], q[j]);
    }
    forall x | u <= x < n ensures Covered(isn, q, x) {
      assert Covered(isn, p, x);
      var k :| 0 <= k < |p| && Covers(isn, p[k], x);
      assert SameRange(p[k], q[k]) && Covers(isn, q[k], x);
    }
  }

  // ----- Extended

  /** Filling a free slot with the next stretch of sequence space extends the tiling. */
  lemma {:induction false} ExtendTiles(isn: u32, p: seq<Segment>, k: nat, s: Segment, u: nat, n: nat)
    requires Tiles(isn, p, u, n) && u <= n && k < |p| && !p[k].used
    requires s.used && Lo(isn, s) == n && 0 < Size(s)
    ensures Tiles(isn, p[k := s], u, n + Size(s))
  {
    var q, m := p[k := s], n + Size(s);
    forall i | 0 <= i < |q| ensures Inside(isn, q[i], u, m) {
      if i != k { assert Inside(isn, p[i], u, n); }
    }
    forall i, j | 0 <= i < j < |q| ensures Apart(isn, q[i], q[j]) {
      assert Apart(isn, p[i], p[j]) && Inside(isn, p[i], u, n) && Inside(isn, p[j], u, n);
    }
    forall x | u <= x < m ensures Covered(isn, q, x) {
      if x < n {
        assert Covered(isn, p, x);
        var i :| 0 <= i < |p| && Covers(isn, p[i], x);
        assert Covers(isn, q[i], x);
      } else {
        assert Covers(isn, q[k], x);
      }
    }
  }

  /** A segment `tcp_tick` may send next: the SYN, data at the edge, or the FIN after all data. */
  predicate Sendable(d: Sender, s: Segment)
  {
    && s.used && s.sequence == d.next && s.retries == 0 && !d.ownFin
    && ( || (s.flags == SYN && s.length == 0 && d.next == d.isn)
         || (s.flags == ACK_PSH && 0 < s.length <= TCP_MSS && d.next != d.isn && s.offset == d.txOffset
             && s.offset + s.length <= |d.tx|)
         || (s.flags == ACK_FIN && s.length == 0 && d.next != d.isn && d.next == d.una && d.txOffset == |d.tx|))
  }

  lemma {:induction false} ExtendedEdges(d: Sender, s: Segment, k: nat, now: u64)
    requires Edges(d) && Sendable(d, s) && k < |d.pending|
    requires d.next == d.isn || d.una != d.isn
    ensures Edges(Extended(d, s, k, now))
    ensures Off(d.isn, Wrap32(d.next + Size(s))) == Off(d.isn, d.next) + Size(s)
  {
    ExtendedFields(d, s, k, now);
    if s.flags == SYN { assert Off(d.isn, d.next) == 0; } else { NextMoved(d); }
  }

  lemma {:induction false} ExtendedFields(d: Sender, s: Segment, k: nat, now: u64)
    requires Edges(d) && Sendable(d, s) && k < |d.pending|
    ensures var f := Extended(d, s, k, now);
      && f.isn == d.isn && f.una == d.una && f.tx == d.tx && f.delivered == d.delivered
      && f.ownFinAcked == d.ownFinAcked && f.ownFin == Fin(s.flags) && |f.pending| == |d.pending|
      && f.next == Wrap32(d.next + Size(s)) && Off(f.isn, f.next) == Off(d.isn, d.next) + Size(s)
      && f.txOffset == d.txOffset + s.length
  {
    OffAdd(d.isn, d.next, Size(s));
    WrapSmall(d.txOffset + s.length);
  }

  lemma {:induction false} WrapSmall(x: nat)
    requires x < 0x1_0000_0000
    ensures Wrap32(x) == x
  {
  }

  lemma {:induction false} NextMoved(d: Sender)
    requires d.next != d.isn
    ensures Off(d.isn, d.next) > 0
  {
    if Off(d.isn, d.next) == 0 { OffInjective(d.isn, d.next, d.isn); }
  }

  /** A slot stays good while the sent part of the file grows. */
  lemma {:induction false} SlotOkGrows(d: Sender, e: Sender, s: Segment)
    requires SlotOk(d, s) && e.isn == d.isn && e.tx == d.tx && d.txOffset <= e.txOffset
    requires d.ownFin ==> e.ownFin
    ensures SlotOk(e, s)
  {
  }

  lemma {:induction false} SentSlotOk(d: Sender, s: Segment, k: nat, now: u64)
    requires Edges(d) && Sendable(d, s) && k < |d.pending|
    ensures SlotOk(Extended(d, s, k, now), s.(sentUs := now))
  {
    ExtendedFields(d, s, k, now);
    if s.flags != SYN { NextMoved(d); }
  }

  lemma {:induction false} ExtendedSlots(d: Sender, s: Segment, k: nat, now: u64)
    requires SenderInv(d) && Sendable(d, s) && k < |d.pending|
    ensures SlotsOk(Extended(d, s, k, now))
  {
    var e := Extended(d, s, k, now);
    ExtendedFields(d, s, k, now);
    SentSlotOk(d, s, k, now);
    SlotsGrow(d, e, d.pending);
    assert e.pending == d.pending[k := s.(sentUs := now)];
  }

  lemma {:induction false} ExtendedTiled(d: Sender, s: Segment, k: nat, now: u64)
    requires SenderInv(d) && Sendable(d, s) && k < |d.pending| && !d.pending[k].used
    requires if d.next == d.isn then k == 0 else d.una != d.isn
    ensures Tiled(Extended(d, s, k, now)) && LoneSyn(Extended(d, s, k, now))
  {
    ExtendedEdges(d, s, k, now);
    ExtendTiles(d.isn, d.pending, k, s.(sentUs := now), Off(d.isn, d.una), Off(d.isn, d.next));
  }

  /** Sending new sequence space keeps the sender invariant. */
  lemma {:induction false} ExtendedKeeps(d: Sender, s: Segment, k: nat, now: u64)
    requires SenderInv(d) && Sendable(d, s) && k < |d.pending| && !d.pending[k].used
    requires if d.next == d.isn then k == 0 else d.una != d.isn
    ensures SenderInv(Extended(d, s, k, now))
  {
    ExtendedEdges(d, s, k, now);
    ExtendedSlots(d, s, k, now);
    ExtendedTiled(d, s, k, now);
  }

  // ----- the handshake

  /** The sender after the SYN-ACK. */
  function Opened(d: Sender, a: u32): Sender
    requires |d.pending| > 0
  {
    d.(una := a, pending := d.pending[0 := d.pending[0].(used := false)])
  }

  /** The SYN-ACK releases the SYN slot and leaves nothing pending. */
  lemma {:induction false} HandshakeKeeps(d: Sender, a: u32)
    requires SenderInv(d) && d.una == d.isn && a == Wrap32(d.isn + 1) == d.next
    ensures |d.pending| > 0 && SenderInv(Opened(d, a)) && !d.ownFin
  {
    var e := Opened(d, a);
    assert Off(d.isn, a) == 1;
    assert forall i :: 0 <= i < |e.pending| ==> !e.pending[i].used;
  }
}
