/** The outgoing half of the TCP stream: the pending slots always tile the unacknowledged part of
    the sequence space, across wrap-around and any mix of ACKs, retransmissions and new data. */
module TcpSender {
  import opened Words
  import opened TcpModel

  // ----- the 32-bit circle

  /** The ACK test of `ack`: with less than half the circle outstanding, an acknowledgement number
      that is neither before `una` nor after `next` is exactly one in the cyclic interval [una, next]. */
  lemma {:induction false} AckInterval(una: u32, next: u32, a: u32)
    requires Wrap32(next - una) < 0x8000_0000
    ensures !Before(a, una) && !Before(next, a) <==> Wrap32(a - una) <= Wrap32(next - una)
  {
    var d: int := Wrap32(a - una);
    var e: int := Wrap32(next - una);
    OffDifference(una, next, a);
    if d > e { WrapBelow(e - d); }
  }

  lemma {:induction false} WrapBelow(x: int)
    requires -0x1_0000_0000 <= x < 0
    ensures Wrap32(x) == x + 0x1_0000_0000
  {
  }

  /** Distance of a sequence number from the initial one: the position in the outgoing stream. */
  function Off(isn: u32, x: u32): (r: u32) { Wrap32(x - isn) }

  lemma {:induction false} BeforeIsOrder(isn: u32, a: u32, b: u32)
    requires Off(isn, a) < 0x8000_0000 && Off(isn, b) < 0x8000_0000
    ensures Before(a, b) <==> Off(isn, a) < Off(isn, b)
    ensures Off(isn, a) <= Off(isn, b) ==> Wrap32(b - a) == Off(isn, b) - Off(isn, a)
  {
    OffDifference(isn, a, b);
    OffDifference(isn, b, a);
  }

  lemma {:induction false} OffInjective(isn: u32, a: u32, b: u32)
    requires Off(isn, a) == Off(isn, b)
    ensures a == b
  {
  }

  /** Distances between sequence numbers do not depend on the origin. */
  lemma {:induction false} OffDifference(isn: u32, a: u32, b: u32)
    ensures Wrap32(a - b) == Wrap32(Off(isn, a) - Off(isn, b))
  {
    assert Off(isn, a) == a - isn + if a < isn then 0x1_0000_0000 else 0;
    assert Off(isn, b) == b - isn + if b < isn then 0x1_0000_0000 else 0;
  }

  lemma {:induction false} OffAdd(isn: u32, x: u32, k: nat)
    requires Off(isn, x) + k < 0x1_0000_0000
    ensures Off(isn, Wrap32(x + k)) == Off(isn, x) + k
  {
    assert Off(isn, Wrap32(x + k)) == Wrap32(Off(isn, x) + k);
  }

  lemma {:induction false} OffPred(isn: u32, x: u32)
    requires Off(isn, x) > 0
    ensures Off(isn, Wrap32(x - 1)) == Off(isn, x) - 1
  {
  }

  // ----- tiling

  function Lo(isn: u32, s: Segment): u32 { Off(isn, s.sequence) }

  function Hi(isn: u32, s: Segment): nat { Lo(isn, s) + Size(s) }

  predicate Covers(isn: u32, s: Segment, x: int) { s.used && Lo(isn, s) <= x < Hi(isn, s) }

  predicate Inside(isn: u32, s: Segment, u: nat, n: nat)
  {
    s.used ==> u <= Lo(isn, s) < Hi(isn, s) <= n
  }

  predicate Apart(isn: u32, s: Segment, t: Segment)
  {
    s.used && t.used ==> Hi(isn, s) <= Lo(isn, t) || Hi(isn, t) <= Lo(isn, s)
  }

  ghost predicate Disjoint(isn: u32, p: seq<Segment>)
  {
    forall i, j :: 0 <= i < j < |p| ==> Apart(isn, p[i], p[j])
  }

  ghost predicate Covered(isn: u32, p: seq<Segment>, x: int)
  {
    exists i :: 0 <= i < |p| && Covers(isn, p[i], x)
  }

  /** The used slots cut [u, n) into non-empty pieces: no gap, no overlap, nothing outside. */
  ghost predicate Tiles(isn: u32, p: seq<Segment>, u: nat, n: nat)
  {
    && (forall i :: 0 <= i < |p| ==> Inside(isn, p[i], u, n))
    && Disjoint(isn, p)
    && (forall x :: u <= x < n ==> Covered(isn, p, x))
  }

  /** Sequence numbers held by the used slots. */
  function SumSize(p: seq<Segment>): nat
  {
    if p == [] then 0
    else SumSize(p[..|p| - 1]) + if p[|p| - 1].used then Size(p[|p| - 1]) else 0
  }

  /** Payload bytes held by the used slots. */
  function PendingBytes(p: seq<Segment>): nat
  {
    if p == [] then 0
    else PendingBytes(p[..|p| - 1]) + if p[|p| - 1].used then p[|p| - 1].length else 0
  }

  ghost function Range(lo: int, hi: int): (r: set<int>)
    requires lo <= hi
    ensures |r| == hi - lo
    ensures forall x :: x in r <==> lo <= x < hi
    decreases hi - lo
  {
    if lo == hi then {} else Range(lo, hi - 1) + {hi - 1}
  }

  /** The sequence positions covered by the used slots. */
  ghost function Union(isn: u32, p: seq<Segment>): set<int>
  {
    if p == [] then {}
    else Union(isn, p[..|p| - 1]) +
         (if p[|p| - 1].used then Range(Lo(isn, p[|p| - 1]), Hi(isn, p[|p| - 1])) else {})
  }

  lemma {:induction false} UnionMember(isn: u32, p: seq<Segment>, x: int)
    ensures x in Union(isn, p) <==> Covered(isn, p, x)
  {
    if p != [] {
      var q := p[..|p| - 1];
      UnionMember(isn, q, x);
      CoveredPush(isn, p, x);
    }
  }

  lemma {:induction false} CoveredPush(isn: u32, p: seq<Segment>, x: int)
    requires p != []
    ensures Covered(isn, p, x) <==> Covered(isn, p[..|p| - 1], x) || Covers(isn, p[|p| - 1], x)
  {
    var q := p[..|p| - 1];
    if Covered(isn, q, x) {
      var i :| 0 <= i < |q| && Covers(isn, q[i], x);
      assert Covers(isn, p[i], x);
    }
    if Covered(isn, p, x) && !Covers(isn, p[|p| - 1], x) {
      var i :| 0 <= i < |p| && Covers(isn, p[i], x);
      assert Covers(isn, q[i], x);
    }
  }

  lemma {:induction false} UnionSize(isn: u32, p: seq<Segment>)
    requires Disjoint(isn, p)
    ensures |Union(isn, p)| == SumSize(p)
  {
    if p != [] {
      var q, s := p[..|p| - 1], p[|p| - 1];
      assert Disjoint(isn, q) by {
        forall i, j | 0 <= i < j < |q| ensures Apart(isn, q[i], q[j]) {
          assert q[i] == p[i] && q[j] == p[j];
        }
      }
      UnionSize(isn, q);
      if s.used {
        forall x | x in Range(Lo(isn, s), Hi(isn, s)) ensures x !in Union(isn, q) {
          forall i | 0 <= i < |q| ensures !Covers(isn, q[i], x) {
            assert Apart(isn, p[i], p[|p| - 1]);
          }
          UnionMember(isn, q, x);
        }
      }
    }
  }

  /** A tiling accounts for every sequence number exactly once. */
  lemma {:induction false} TilesSum(isn: u32, p: seq<Segment>, u: nat, n: nat)
    requires Tiles(isn, p, u, n) && u <= n
    ensures SumSize(p) == n - u
  {
    UnionSize(isn, p);
    forall x ensures x in Union(isn, p) <==> x in Range(u, n) {
      UnionMember(isn, p, x);
      if Covered(isn, p, x) {
        var i :| 0 <= i < |p| && Covers(isn, p[i], x);
        assert Inside(isn, p[i], u, n);
      }
    }
    assert Union(isn, p) == Range(u, n);
  }

  // ----- the sender invariant

  function Bit(b: bool): nat { if b then 1 else 0 }

  /** What a used slot holds: the SYN, a stretch of tx at its own sequence number, or the FIN. */
  predicate SlotOk(d: Sender, s: Segment)
  {
    s.used ==>
      && s.retries <= 8
      && ( || (s.flags == SYN && s.length == 0 && Lo(d.isn, s) == 0)
           || (s.flags == ACK_PSH && 0 < s.length <= TCP_MSS && Lo(d.isn, s) == 1 + s.offset
               && s.offset + s.length <= d.txOffset)
           || (s.flags == ACK_FIN && s.length == 0 && Lo(d.isn, s) == 1 + |d.tx| && d.ownFin))
  }

  /** The scalar part: where the edges of the window stand. */
  predicate Edges(d: Sender)
  {
    var u, n := Off(d.isn, d.una), Off(d.isn, d.next);
    && |d.pending| == TCP_SLOTS && |d.tx| <= TCP_BUFFER && d.txOffset <= |d.tx|
    && u <= n
    && (if n == 0 then d.txOffset == 0 && !d.ownFin else n == 1 + d.txOffset + Bit(d.ownFin))
    && (if u == 0 then n <= 1 && d.delivered == 0 && !d.ownFinAcked
        else u == 1 + d.delivered + Bit(d.ownFinAcked))
    && (d.ownFinAcked ==> d.ownFin)
    && (d.ownFin ==> d.txOffset == |d.tx| == d.delivered)
  }

  predicate SlotsOk(d: Sender) { forall i :: 0 <= i < |d.pending| ==> SlotOk(d, d.pending[i]) }

  /** Before the handshake completes only slot 0, the SYN's, can be in use. */
  predicate LoneSyn(d: Sender)
  {
    d.una == d.isn ==> forall i :: 1 <= i < |d.pending| ==> !d.pending[i].used
  }

  ghost predicate Tiled(d: Sender)
  {
    Tiles(d.isn, d.pending, Off(d.isn, d.una), Off(d.isn, d.next))
  }

  ghost predicate SenderInv(d: Sender)
  {
    Edges(d) && SlotsOk(d) && LoneSyn(d) && Tiled(d)
  }

  /** Conservation: acknowledged + pending + unsent bytes make up the whole transfer. */
  lemma {:induction false} Conservation(d: Sender)
    requires SenderInv(d)
    ensures d.delivered + PendingBytes(d.pending) + (|d.tx| - d.txOffset) == |d.tx|
  {
    var u, n := Off(d.isn, d.una), Off(d.isn, d.next);
    TilesSum(d.isn, d.pending, u, n);
    if u == 0 || d.ownFin {
      forall i | 0 <= i < |d.pending| && d.pending[i].used ensures d.pending[i].length == 0 {
        assert SlotOk(d, d.pending[i]) && Inside(d.isn, d.pending[i], u, n);
      }
      NoPayload(d.pending);
    } else {
      forall i | 0 <= i < |d.pending| && d.pending[i].used
        ensures Size(d.pending[i]) == d.pending[i].length
      {
        assert SlotOk(d, d.pending[i]) && Inside(d.isn, d.pending[i], u, n);
      }
      OnlyPayload(d.pending);
    }
  }

  lemma {:induction false} NoPayload(p: seq<Segment>)
    requires forall i :: 0 <= i < |p| && p[i].used ==> p[i].length == 0
    ensures PendingBytes(p) == 0
  {
    if p != [] { NoPayload(p[..|p| - 1]); }
  }

  lemma {:induction false} OnlyPayload(p: seq<Segment>)
    requires forall i :: 0 <= i < |p| && p[i].used ==> Size(p[i]) == p[i].length
    ensures PendingBytes(p) == SumSize(p)
  {
    if p != [] { OnlyPayload(p[..|p| - 1]); }
  }

  // ----- oldest

  /** `oldest` finds the slot that starts at `una`: the first missing sequence number. */
  lemma {:induction false} OldestIsUna(isn: u32, p: seq<Segment>, una: u32, next: u32)
    requires Tiles(isn, p, Off(isn, una), Off(isn, next))
    requires Off(isn, una) <= Off(isn, next) < 0x8000_0000
    ensures var i := Oldest(p);
      if una == next then i == -1 && forall k :: 0 <= k < |p| ==> !p[k].used
      else 0 <= i && p[i].used && p[i].sequence == una
  {
    forall i | 0 <= i < |p| && p[i].used
      ensures una != next
      ensures !Before(p[i].sequence, una) && (Before(una, p[i].sequence) <==> p[i].sequence != una)
    {
      SlotFollows(isn, p, una, next, i);
    }
    if una == next {
      OldestNone(p, 0);
    } else {
      var k := FirstSlot(isn, p, una, next);
      OldestHits(p, 0, -1, una, k);
    }
  }

  /** A used slot of a tiling does not start before its left end. */
  lemma {:induction false} SlotFollows(isn: u32, p: seq<Segment>, una: u32, next: u32, i: nat)
    requires Tiles(isn, p, Off(isn, una), Off(isn, next)) && Off(isn, next) < 0x8000_0000 && i < |p| && p[i].used
    ensures una != next && !Before(p[i].sequence, una) && (Before(una, p[i].sequence) <==> p[i].sequence != una)
  {
    assert Inside(isn, p[i], Off(isn, una), Off(isn, next));
    BeforeIsOrder(isn, una, p[i].sequence);
    BeforeIsOrder(isn, p[i].sequence, una);
    if Off(isn, p[i].sequence) == Off(isn, una) { OffInjective(isn, p[i].sequence, una); }
  }

  lemma {:induction false} FirstSlot(isn: u32, p: seq<Segment>, una: u32, next: u32) returns (k: nat)
    requires Tiles(isn, p, Off(isn, una), Off(isn, next))
    requires Off(isn, una) <= Off(isn, next) < 0x8000_0000 && una != next
    ensures k < |p| && p[k].used && p[k].sequence == una
  {
    var u := Off(isn, una);
    assert u < Off(isn, next) by { if u == Off(isn, next) { OffInjective(isn, una, next); } }
    assert Covered(isn, p, u);
    k :| 0 <= k < |p| && Covers(isn, p[k], u);
    assert Inside(isn, p[k], u, Off(isn, next));
    OffInjective(isn, p[k].sequence, una);
  }

  lemma {:induction false} OldestNone(p: seq<Segment>, i: nat)
    requires i <= |p| && forall k :: 0 <= k < |p| ==> !p[k].used
    ensures OldestFrom(p, i, -1) == -1
    decreases |p| - i
  {
    if i < |p| { OldestNone(p, i + 1); }
  }

  lemma {:induction false} OldestHits(p: seq<Segment>, i: nat, best: int, low: u32, k: nat)
    requires i <= |p| && -1 <= best < |p| && k < |p|
    requires p[k].used && p[k].sequence == low
    requires forall j :: 0 <= j < |p| && p[j].used ==>
      !Before(p[j].sequence, low) && (Before(low, p[j].sequence) <==> p[j].sequence != low)
    requires best >= 0 ==> p[best].used
    requires k < i ==> best >= 0 && p[best].sequence == low
    ensures var r := OldestFrom(p, i, best); 0 <= r && p[r].used && p[r].sequence == low
    decreases |p| - i
  {
    if i < |p| {
      var b := if p[i].used && (best < 0 || Before(p[i].sequence, p[best].sequence)) then i else best;
      OldestHits(p, i + 1, b, low, k);
    }
  }
}
