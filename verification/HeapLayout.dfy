/** The allocator's headers as bytes inside the arena, linked by native pointers. */
module HeapLayout {
  import opened Words
  import opened Bits
  import opened Buffers
  import opened HeapModel

  /** A header as read from memory; `next` is a native address, zero for the end of the list. */
  datatype Header = Header(size: nat, next: nat, available: bool)

  function HeaderBytes(h: Header): (s: seq<u8>)
    ensures |s| == HEADER
  {
    Bytes(h.size, 8) + Bytes(h.next, 8) + [if h.available then 1 else 0] + Bytes(0, 15)
  }

  function HeaderAt(s: seq<u8>, a: nat): Header
    requires a + HEADER <= |s|
  {
    Header(Le(s[a..a + 8]), Le(s[a + 8..a + 16]), s[a + 16] != 0)
  }

  predicate Holds(s: seq<u8>, a: nat, h: Header) { a + HEADER <= |s| && HeaderAt(s, a) == h }

  predicate Storable(h: Header) { h.size < 0x1_0000_0000_0000_0000 && h.next < 0x1_0000_0000_0000_0000 }

  lemma {:induction false} Parts(x: seq<u8>, y: seq<u8>, f: u8, z: seq<u8>)
    requires |x| == |y| == 8
    ensures var u := x + y + [f] + z; u[..8] == x && u[8..16] == y && u[16] == f
  {
  }

  lemma {:induction false} HeaderParts(h: Header)
    requires Storable(h)
    ensures Le(HeaderBytes(h)[..8]) == h.size && Le(HeaderBytes(h)[8..16]) == h.next
    ensures HeaderBytes(h)[16] != 0 <==> h.available
  {
    Parts(Bytes(h.size, 8), Bytes(h.next, 8), if h.available then 1 else 0, Bytes(0, 15));
    Pow2Values();
    LeExact(h.size, 8);
    LeExact(h.next, 8);
  }

  lemma {:induction false} PasteParts(s: seq<u8>, a: nat, u: seq<u8>)
    requires |u| == HEADER && a + HEADER <= |s|
    ensures Holds(Paste(s, a, u), a, Header(Le(u[..8]), Le(u[8..16]), u[16] != 0))
  {
    var t := Paste(s, a, u);
    assert t[a..a + 8] == u[..8] && t[a + 8..a + 16] == u[8..16];
  }

  /** A header written at `a` is read back, and headers elsewhere are untouched. */
  lemma {:induction false} WriteRead(s: seq<u8>, a: nat, h: Header)
    requires a + HEADER <= |s| && Storable(h)
    ensures Holds(Paste(s, a, HeaderBytes(h)), a, h)
  {
    HeaderParts(h);
    PasteParts(s, a, HeaderBytes(h));
  }

  /** The buffers differ at most in the `n` bytes from `a` on. */
  ghost predicate SameBut(s: seq<u8>, t: seq<u8>, a: nat, n: nat)
  {
    |t| == |s| && forall x :: 0 <= x < |s| && !(a <= x < a + n) ==> t[x] == s[x]
  }

  lemma {:induction false} WriteElsewhere(s: seq<u8>, t: seq<u8>, a: nat, n: nat, b: nat)
    requires SameBut(s, t, a, n) && b + HEADER <= |s| && (b + HEADER <= a || a + n <= b)
    ensures Holds(t, b, HeaderAt(s, b))
  {
    assert t[b..b + 8] == s[b..b + 8] && t[b + 8..b + 16] == s[b + 8..b + 16];
  }

  /** The header block `i` must carry. */
  function HeaderOf(bs: seq<Block>, i: nat, base: nat): Header
    requires i < |bs|
  {
    Header(bs[i].size, if i + 1 < |bs| then base + Addr(bs, i + 1) else 0, bs[i].free)
  }

  ghost predicate LinkAt(s: seq<u8>, bs: seq<Block>, i: nat, base: nat)
    requires i < |bs|
  {
    Holds(s, Addr(bs, i), HeaderOf(bs, i, base))
  }

  /** The bytes of the arena hold exactly this block list. */
  ghost predicate Linked(s: seq<u8>, bs: seq<Block>, base: nat)
  {
    forall i :: 0 <= i < |bs| ==> LinkAt(s, bs, i, base)
  }

  lemma {:induction false} BlockInside(bs: seq<Block>, i: nat)
    requires Total(bs) == ARENA && i < |bs|
    ensures Addr(bs, i) + HEADER + bs[i].size <= ARENA
  {
    AddrStep(bs, i, |bs|);
    AddrEnd(bs);
  }

  lemma {:induction false} HeaderStorable(bs: seq<Block>, i: nat, base: nat)
    requires Total(bs) == ARENA && i < |bs| && base + ARENA < 0x1_0000_0000_0000_0000
    ensures Storable(HeaderOf(bs, i, base))
  {
    BlockInside(bs, i);
    if i + 1 < |bs| { BlockInside(bs, i + 1); }
  }

  // ----- live payload bytes

  predicate Payload(bs: seq<Block>, i: nat, x: int)
    requires i < |bs|
  {
    Addr(bs, i) + HEADER <= x < Addr(bs, i) + HEADER + bs[i].size
  }

  ghost predicate Live(bs: seq<Block>, x: int)
  {
    exists i :: 0 <= i < |bs| && !bs[i].free && Payload(bs, i, x)
  }

  /** No byte belongs to two payloads. */
  lemma {:induction false} PayloadsApart(bs: seq<Block>, i: nat, j: nat, x: int)
    requires i < |bs| && j < |bs| && Payload(bs, i, x) && Payload(bs, j, x)
    ensures i == j
  {
    if i < j { AddrStep(bs, i, j); }
    if j < i { AddrStep(bs, j, i); }
  }

  /** The span of a free block and every header lie outside all live payloads. */
  lemma {:induction false} NotLive(bs: seq<Block>, k: nat, x: int)
    requires k < |bs| && Addr(bs, k) <= x < Addr(bs, k) + HEADER + if bs[k].free then bs[k].size else 0
    ensures !Live(bs, x)
  {
    forall i | 0 <= i < |bs| && !bs[i].free ensures !Payload(bs, i, x) {
      if i < k { AddrStep(bs, i, k); }
      if k < i { AddrStep(bs, k, i); }
    }
  }

  /** Storing into a payload cannot damage the list. */
  lemma {:induction false} PayloadWrite(s: seq<u8>, t: seq<u8>, bs: seq<Block>, base: nat, k: nat, at: nat, n: nat)
    requires Linked(s, bs, base) && |s| == ARENA == Total(bs) && k < |bs| && SameBut(s, t, at, n)
    requires Addr(bs, k) + HEADER <= at && at + n <= Addr(bs, k) + HEADER + bs[k].size
    ensures Linked(t, bs, base)
  {
    forall i | 0 <= i < |bs| ensures LinkAt(t, bs, i, base) {
      assert LinkAt(s, bs, i, base);
      if i < k { AddrStep(bs, i, k); }
      if k < i { AddrStep(bs, k, i); }
      WriteElsewhere(s, t, at, n, Addr(bs, i));
    }
  }

  // ----- addresses after the list changes

  /** Lists equal but for one block's state have the same addresses. */
  lemma {:induction false} MarkAddr(bs: seq<Block>, k: nat, free: bool, i: nat)
    requires k < |bs| && i <= |bs|
    ensures Addr(bs[k := Block(bs[k].size, free)], i) == Addr(bs, i)
  {
    var cs := bs[k := Block(bs[k].size, free)];
    if i <= k {
      assert cs[..i] == bs[..i];
    } else {
      assert cs[..i] == bs[..i][k := Block(bs[k].size, free)];
      UpdateTotal(bs[..i], k, Block(bs[k].size, free));
    }
  }

  /** Rewriting one header to the state of a list that differs only there. */
  lemma {:induction false} MarkLinked(s: seq<u8>, t: seq<u8>, bs: seq<Block>, base: nat, k: nat, free: bool)
    requires Linked(s, bs, base) && k < |bs| && SameBut(s, t, Addr(bs, k), HEADER)
    requires Holds(t, Addr(bs, k), HeaderOf(bs, k, base).(available := free))
    ensures Linked(t, bs[k := Block(bs[k].size, free)], base)
  {
    var cs := bs[k := Block(bs[k].size, free)];
    forall i | 0 <= i < |cs| ensures LinkAt(t, cs, i, base) {
      MarkHeader(bs, k, free, i, base);
      if i != k { KeptLink(s, t, bs, base, i, k); }
    }
  }

  lemma {:induction false} MarkHeader(bs: seq<Block>, k: nat, free: bool, i: nat, base: nat)
    requires k < |bs| && i < |bs|
    ensures var cs := bs[k := Block(bs[k].size, free)];
      && Addr(cs, i) == Addr(bs, i)
      && HeaderOf(cs, i, base) == if i == k then HeaderOf(bs, k, base).(available := free) else HeaderOf(bs, i, base)
  {
    MarkAddr(bs, k, free, i);
    MarkAddr(bs, k, free, i + 1);
  }

  /** A header survives a header written over another block's. */
  lemma {:induction false} KeptLink(s: seq<u8>, t: seq<u8>, bs: seq<Block>, base: nat, i: nat, k: nat)
    requires Linked(s, bs, base) && i < |bs| && k < |bs| && i != k && SameBut(s, t, Addr(bs, k), HEADER)
    ensures Holds(t, Addr(bs, i), HeaderOf(bs, i, base))
  {
    assert LinkAt(s, bs, i, base);
    Apart(bs, i, k);
    WriteElsewhere(s, t, Addr(bs, k), HEADER, Addr(bs, i));
  }

  lemma {:induction false} Apart(bs: seq<Block>, i: nat, k: nat)
    requires i < |bs| && k < |bs| && i != k
    ensures Addr(bs, i) + HEADER <= Addr(bs, k) || Addr(bs, k) + HEADER <= Addr(bs, i)
  {
    if i < k { AddrStep(bs, i, k); } else { AddrStep(bs, k, i); }
  }

  // ----- splitting

  function Halves(b: Block, n: nat): seq<Block>
    requires Splits(b, n)
  {
    [Block(n, false), Block(b.size - n - HEADER, true)]
  }

  lemma {:induction false} SplitAddr(bs: seq<Block>, k: nat, n: nat, i: nat)
    requires k < |bs| && Splits(bs[k], n) && i <= |bs| + 1
    ensures Addr(Take(bs, k, n), i) ==
      if i <= k then Addr(bs, i) else if i == k + 1 then Addr(bs, k) + HEADER + n else Addr(bs, i - 1)
  {
    var cs, h := Take(bs, k, n), Halves(bs[k], n);
    if i <= k {
      assert cs[..i] == bs[..i];
    } else if i == k + 1 {
      assert cs[..i] == bs[..k] + [h[0]];
      TotalConcat(bs[..k], [h[0]]);
      TotalOne(h[0]);
    } else {
      assert cs[..i] == bs[..k] + h + bs[k + 1..i - 1];
      assert bs[..i - 1] == bs[..k] + [bs[k]] + bs[k + 1..i - 1];
      SplitTotal(bs[..k], bs[k], n, bs[k + 1..i - 1]);
    }
  }

  /** The header of what a splitting `malloc` leaves over, and where it goes. */
  function RestHeader(bs: seq<Block>, base: nat, k: nat, n: nat): Header
    requires k < |bs| && Splits(bs[k], n)
  {
    Header(bs[k].size - n - HEADER, HeaderOf(bs, k, base).next, true)
  }

  /** First write of a split: the remainder's header goes into the free payload and harms nothing. */
  lemma {:induction false} SplitRest(s: seq<u8>, u: seq<u8>, bs: seq<Block>, base: nat, k: nat, n: nat)
    requires Linked(s, bs, base) && |s| == ARENA == Total(bs) && k < |bs| && Splits(bs[k], n) && bs[k].free
    requires SameBut(s, u, Addr(bs, k) + HEADER + n, HEADER)
    ensures Linked(u, bs, base) && KeepsLive(s, u, bs)
  {
    PayloadWrite(s, u, bs, base, k, Addr(bs, k) + HEADER + n, HEADER);
    WriteKeeps(s, u, bs, k, Addr(bs, k) + HEADER + n, HEADER);
  }

  /** The header of the part a splitting `malloc` grants. */
  function HeadHeader(bs: seq<Block>, base: nat, k: nat, n: nat): Header
    requires k < |bs|
  {
    Header(n, base + (Addr(bs, k) + HEADER + n), false)
  }

  /** Second write: the shortened header links the remainder in. */
  lemma {:induction false} SplitHead(u: seq<u8>, t: seq<u8>, bs: seq<Block>, base: nat, k: nat, n: nat)
    requires Linked(u, bs, base) && k < |bs| && Splits(bs[k], n)
    requires Holds(u, Addr(bs, k) + HEADER + n, RestHeader(bs, base, k, n))
    requires SameBut(u, t, Addr(bs, k), HEADER) && Holds(t, Addr(bs, k), HeadHeader(bs, base, k, n))
    ensures Linked(t, Take(bs, k, n), base) && KeepsLive(u, t, bs)
  {
    var cs := Take(bs, k, n);
    WriteKeeps(u, t, bs, k, Addr(bs, k), HEADER);
    forall i | 0 <= i < |cs| ensures LinkAt(t, cs, i, base) {
      SplitHeader(bs, base, k, n, i);
      SplitAddr(bs, k, n, i);
      if i != k { SplitLinkAt(u, t, bs, base, k, n, i); }
    }
  }

  lemma {:induction false} SplitHeader(bs: seq<Block>, base: nat, k: nat, n: nat, i: nat)
    requires k < |bs| && Splits(bs[k], n) && i <= |bs|
    ensures HeaderOf(Take(bs, k, n), i, base) ==
      if i < k then HeaderOf(bs, i, base)
      else if i == k then Header(n, base + Addr(bs, k) + HEADER + n, false)
      else if i == k + 1 then Header(bs[k].size - n - HEADER, HeaderOf(bs, k, base).next, true)
      else HeaderOf(bs, i - 1, base)
  {
    SplitAddr(bs, k, n, i + 1);
  }

  lemma {:induction false} SplitLinkAt(u: seq<u8>, t: seq<u8>, bs: seq<Block>, base: nat, k: nat, n: nat, i: nat)
    requires Linked(u, bs, base) && k < |bs| && Splits(bs[k], n) && i <= |bs| && i != k
    requires Holds(u, Addr(bs, k) + HEADER + n, RestHeader(bs, base, k, n)) && SameBut(u, t, Addr(bs, k), HEADER)
    ensures
      if i < k then Holds(t, Addr(bs, i), HeaderOf(bs, i, base))
      else if i == k + 1 then Holds(t, Addr(bs, k) + HEADER + n, RestHeader(bs, base, k, n))
      else Holds(t, Addr(bs, i - 1), HeaderOf(bs, i - 1, base))
  {
    if i == k + 1 {
      WriteElsewhere(u, t, Addr(bs, k), HEADER, Addr(bs, k) + HEADER + n);
    } else {
      KeptLink(u, t, bs, base, if i < k then i else i - 1, k);
    }
  }

  // ----- merging

  /** Blocks `k` and `k + 1` joined. */
  function Merge(bs: seq<Block>, k: nat): seq<Block>
    requires k + 1 < |bs|
  {
    bs[..k] + [Block(bs[k].size + HEADER + bs[k + 1].size, true)] + bs[k + 2..]
  }

  lemma {:induction false} MergeAddr(bs: seq<Block>, k: nat, i: nat)
    requires k + 1 < |bs| && i < |bs|
    ensures Addr(Merge(bs, k), i) == if i <= k then Addr(bs, i) else Addr(bs, i + 1)
  {
    var cs, b := Merge(bs, k), Block(bs[k].size + HEADER + bs[k + 1].size, true);
    if i <= k {
      assert cs[..i] == bs[..i];
    } else {
      assert cs[..i] == bs[..k] + [b] + bs[k + 2..i + 1];
      assert bs[..i + 1] == bs[..k] + [bs[k], bs[k + 1]] + bs[k + 2..i + 1];
      TotalSplice(bs[..k], [b], bs[k + 2..i + 1]);
      TotalSplice(bs[..k], [bs[k], bs[k + 1]], bs[k + 2..i + 1]);
      TotalOne(b);
      TotalPair(bs[k], bs[k + 1]);
    }
  }

  lemma {:induction false} MergeTotal(bs: seq<Block>, k: nat)
    requires k + 1 < |bs|
    ensures Total(Merge(bs, k)) == Total(bs)
  {
    MergeAddr(bs, k, |bs| - 1);
    AddrEnd(bs);
    AddrEnd(Merge(bs, k));
  }

  /** Widening block `k`'s header over its free neighbour unlinks the neighbour. */
  lemma {:induction false} MergeLinked(s: seq<u8>, t: seq<u8>, bs: seq<Block>, base: nat, k: nat)
    requires Linked(s, bs, base) && k + 1 < |bs| && SameBut(s, t, Addr(bs, k), HEADER)
    requires Holds(t, Addr(bs, k), HeaderOf(Merge(bs, k), k, base))
    ensures Linked(t, Merge(bs, k), base)
  {
    var cs := Merge(bs, k);
    MergeAddr(bs, k, k);
    forall i | 0 <= i < |cs| ensures LinkAt(t, cs, i, base) {
      if i != k {
        MergeAddr(bs, k, i);
        MergeHeader(bs, base, k, i);
        KeptLink(s, t, bs, base, if i < k then i else i + 1, k);
      }
    }
  }

  lemma {:induction false} MergeHeader(bs: seq<Block>, base: nat, k: nat, i: nat)
    requires k + 1 < |bs| && i < |bs| - 1
    ensures HeaderOf(Merge(bs, k), i, base) ==
      if i < k then HeaderOf(bs, i, base)
      else if i == k then Header(bs[k].size + HEADER + bs[k + 1].size, HeaderOf(bs, k + 1, base).next, true)
      else HeaderOf(bs, i + 1, base)
  {
    if i + 2 < |bs| { MergeAddr(bs, k, i + 1); }
  }

  // ----- what a call leaves alone

  /** Every byte of a live payload of `bs` is the same in `s` and `t`. */
  ghost predicate KeepsLive(s: seq<u8>, t: seq<u8>, bs: seq<Block>)
  {
    |s| == |t| && forall x :: 0 <= x < |s| && Live(bs, x) ==> t[x] == s[x]
  }

  ghost predicate LiveWithin(a: seq<Block>, b: seq<Block>) { forall x :: Live(a, x) ==> Live(b, x) }

  lemma {:induction false} KeepsTrans(s: seq<u8>, t: seq<u8>, u: seq<u8>, bs: seq<Block>)
    requires KeepsLive(s, t, bs) && KeepsLive(t, u, bs)
    ensures KeepsLive(s, u, bs)
  {
  }

  lemma {:induction false} KeepsFewer(s: seq<u8>, t: seq<u8>, a: seq<Block>, b: seq<Block>)
    requires KeepsLive(s, t, b) && LiveWithin(a, b)
    ensures KeepsLive(s, t, a)
  {
  }

  /** A write into a header, or anywhere inside a free block, keeps all live bytes. */
  lemma {:induction false} WriteKeeps(s: seq<u8>, t: seq<u8>, bs: seq<Block>, k: nat, a: nat, n: nat)
    requires k < |bs| && Addr(bs, k) <= a && SameBut(s, t, a, n)
    requires a + n <= Addr(bs, k) + HEADER + if bs[k].free then bs[k].size else 0
    ensures KeepsLive(s, t, bs)
  {
    forall x | 0 <= x < |s| && Live(bs, x) ensures t[x] == s[x] {
      assert !(a <= x < a + n) by { if a <= x < a + n { NotLive(bs, k, x); } }
    }
  }

  /** A further step that keeps the live bytes of a list covering `bs`. */
  lemma {:induction false} KeepsOn(s: seq<u8>, t: seq<u8>, u: seq<u8>, bs: seq<Block>, cs: seq<Block>)
    requires KeepsLive(s, t, bs) && KeepsLive(t, u, cs) && LiveWithin(bs, cs)
    ensures KeepsLive(s, u, bs)
  {
  }

  lemma {:induction false} WithinTrans(a: seq<Block>, b: seq<Block>, c: seq<Block>)
    requires LiveWithin(a, b) && LiveWithin(b, c)
    ensures LiveWithin(a, c)
  {
  }

  lemma {:induction false} InitialKeeps(s: seq<u8>, t: seq<u8>)
    requires |s| == |t|
    ensures KeepsLive(s, t, INITIAL)
  {
  }

  /** The payload of a live block comes through unchanged. */
  lemma {:induction false} PayloadKept(s: seq<u8>, t: seq<u8>, bs: seq<Block>, j: nat, n: nat)
    requires KeepsLive(s, t, bs) && j < |bs| && !bs[j].free && n <= bs[j].size
    requires Addr(bs, j) + HEADER + n <= |s|
    ensures var a := Addr(bs, j) + HEADER; t[a..a + n] == s[a..a + n]
  {
    var a := Addr(bs, j) + HEADER;
    forall x | a <= x < a + n ensures t[x] == s[x] {
      assert Payload(bs, j, x);
      assert Live(bs, x);
    }
    assert t[a..a + n] == s[a..a + n];
  }

  /** The list with block `k` released but not yet joined to its neighbours. */
  function Others(bs: seq<Block>, k: nat): seq<Block>
    requires k < |bs|
  {
    bs[k := Block(bs[k].size, true)]
  }

  lemma {:induction false} OthersWithin(bs: seq<Block>, k: nat)
    requires k < |bs|
    ensures LiveWithin(Others(bs, k), bs)
  {
    forall x | Live(Others(bs, k), x) ensures Live(bs, x) {
      var i :| 0 <= i < |bs| && !Others(bs, k)[i].free && Payload(Others(bs, k), i, x);
      MarkAddr(bs, k, true, i);
      assert Payload(bs, i, x);
    }
  }

  lemma {:induction false} MergeWithin(bs: seq<Block>, k: nat)
    requires k + 1 < |bs| && bs[k].free && bs[k + 1].free
    ensures LiveWithin(bs, Merge(bs, k))
  {
    forall x | Live(bs, x) ensures Live(Merge(bs, k), x) {
      var i :| 0 <= i < |bs| && !bs[i].free && Payload(bs, i, x);
      var j := if i < k then i else i - 1;
      MergeAddr(bs, k, j);
      assert Payload(Merge(bs, k), j, x);
    }
  }

  lemma {:induction false} MovedAddr(bs: seq<Block>, j: nat, n: nat, k: nat)
    requires j < |bs| && k < |bs| && j != k
    ensures var cs, m := Take(bs, j, n), Moved(bs, j, n, k);
      m < |cs| && m != j && cs[m] == bs[k] && Addr(cs, m) == Addr(bs, k)
  {
    if Splits(bs[j], n) { SplitAddr(bs, j, n, Moved(bs, j, n, k)); }
    else { MarkAddr(bs, j, false, k); }
  }

  lemma {:induction false} TakeWithin(bs: seq<Block>, j: nat, n: nat)
    requires j < |bs| && bs[j].free
    ensures LiveWithin(bs, Take(bs, j, n))
  {
    forall x | Live(bs, x) ensures Live(Take(bs, j, n), x) {
      var i :| 0 <= i < |bs| && !bs[i].free && Payload(bs, i, x);
      MovedAddr(bs, j, n, i);
      assert Payload(Take(bs, j, n), Moved(bs, j, n, i), x);
    }
  }

  /** Releasing block `k` and taking from block `j` commute. */
  lemma {:induction false} TakeOthers(bs: seq<Block>, j: nat, n: nat, k: nat)
    requires j < |bs| && k < |bs| && j != k
    ensures Take(Others(bs, k), j, n) == Others(Take(bs, j, n), Moved(bs, j, n, k))
  {
  }
}
