/** The allocator itself: `malloc`, `free`, `realloc` and `calloc` walking and rewriting the headers
    inside a byte arena.  Each call is proved to do to the bytes what `HeapModel` does to the block
    list, and to leave every live payload byte alone. */
module Heap {
  import opened Words
  import opened Buffers
  import H = HeapModel
  import opened HeapModel
  import opened HeapLayout
  import opened HeapLive

  lemma {:induction false} AddrAligned(bs: seq<Block>, i: nat)
    requires AllGood(bs) && i <= |bs|
    ensures Addr(bs, i) % 16 == 0
  {
    if i > 0 {
      AddrAligned(bs, i - 1);
      AddrStep(bs, i - 1, i);
      assert GoodSize(bs[i - 1]);
    }
  }

  lemma {:induction false} AddrBound(bs: seq<Block>, i: nat)
    requires Total(bs) == ARENA && i < |bs|
    ensures Addr(bs, i) + HEADER + bs[i].size <= ARENA
    ensures Addr(bs, 0) == 0
  {
    BlockInside(bs, i);
    assert bs[..0] == [];
  }

  class Allocator {
    const arena: array<u8>
    const base: nat
    var first: nat
    ghost var blocks: seq<Block>

    ghost predicate Placed()
      reads this
    {
      arena.Length == ARENA && 0 < base && base % 16 == 0 && base + ARENA < 0x1_0000_0000_0000_0000
    }

    /** The list is written, starts at the arena and covers it; free neighbours are allowed. */
    ghost predicate Chained()
      reads this, arena
    {
      Placed() && first == base && Total(blocks) == ARENA && Linked(arena[..], blocks, base)
    }

    /** Before the first request the list has not been written yet; it stands for one free block. */
    ghost predicate Valid()
      reads this, arena
    {
      Placed() && Wf(blocks) && if first == 0 then blocks == INITIAL else Chained()
    }

    /** What the caller of `malloc` holds for block `k`. */
    ghost function PayloadOf(k: nat): nat
      requires k < |blocks|
      reads this
    {
      base + Addr(blocks, k) + HEADER
    }

    /** `ptr` is null or the payload of the live block `k`. */
    ghost predicate Owned(ptr: nat, k: nat)
      reads this
    {
      ptr != 0 ==> first != 0 && k < |blocks| && !blocks[k].free && ptr == PayloadOf(k)
    }

    constructor (base: nat)
      requires 0 < base && base % 16 == 0 && base + ARENA < 0x1_0000_0000_0000_0000
      ensures Valid() && blocks == INITIAL && fresh(arena) && this.base == base
    {
      arena := new u8[ARENA](_ => 0);
      this.base := base;
      first, blocks := 0, INITIAL;
      InitialWf();
    }

    /** Stores a run of bytes. */
    method Fill(at: nat, text: seq<u8>)
      requires at + |text| <= arena.Length
      modifies arena
      ensures arena[..] == Paste(old(arena[..]), at, text)
    {
      for i := 0 to |text|
        invariant arena[..] == Paste(old(arena[..]), at, text[..i])
      {
        arena[at + i] := text[i];
        PasteMore(old(arena[..]), at, text, i);
      }
      assert text[..|text|] == text;
    }

    method WriteHeader(a: nat, h: Header)
      requires a + HEADER <= arena.Length && Storable(h)
      modifies arena
      ensures SameBut(old(arena[..]), arena[..], a, HEADER) && Holds(arena[..], a, h)
    {
      Fill(a, HeaderBytes(h));
      WriteRead(old(arena[..]), a, h);
      CutPaste(old(arena[..]), a, HeaderBytes(h));
    }

    /** `ape_heap_reset`. */
    method Reset()
      requires Placed()
      modifies this, arena
      ensures Valid() && blocks == INITIAL && first != 0
    {
      WriteHeader(0, Header(ARENA - HEADER, 0, true));
      first, blocks := base, INITIAL;
      InitialWf();
      AddrBound(INITIAL, 0);
      assert LinkAt(arena[..], INITIAL, 0, base);
    }

    /** Reads the header of block `k`. */
    method ReadHeader(a: nat, ghost k: nat) returns (h: Header)
      requires Chained() && k < |blocks| && a == Addr(blocks, k)
      ensures h == HeaderOf(blocks, k, base)
    {
      assert LinkAt(arena[..], blocks, k, base);
      h := HeaderAt(arena[..], a);
    }

    /** Takes `n` bytes from the free block `k` at offset `a`. */
    method Claim(a: nat, n: nat, ghost k: nat)
      requires Valid() && first != 0 && k < |blocks| && a == Addr(blocks, k)
      requires Fits(blocks[k], n) && n >= 16 && n % 16 == 0
      modifies this`blocks, arena
      ensures Valid() && blocks == Take(old(blocks), k, n)
      ensures KeepsLive(old(arena[..]), arena[..], old(blocks))
    {
      ghost var s, bs := arena[..], blocks;
      AddrBound(bs, k);
      TakeWf(bs, k, n);
      var h := ReadHeader(a, k);
      if h.size >= n + HEADER + 16 {
        Split(a, n, h, k);
      } else {
        HeaderStorable(bs, k, base);
        WriteHeader(a, h.(available := false));
        blocks := Take(bs, k, n);
        MarkLinked(s, arena[..], bs, base, k, false);
        WriteKeeps(s, arena[..], bs, k, a, HEADER);
      }
    }

    /** Writes the header of the remainder, then the shortened header. */
    method Split(a: nat, n: nat, h: Header, ghost k: nat)
      requires Chained() && k < |blocks| && a == Addr(blocks, k) && h == HeaderOf(blocks, k, base)
      requires blocks[k].free && Splits(blocks[k], n)
      modifies this`blocks, arena
      ensures Placed() && blocks == Take(old(blocks), k, n) && Linked(arena[..], blocks, base)
      ensures KeepsLive(old(arena[..]), arena[..], old(blocks))
    {
      ghost var s, bs := arena[..], blocks;
      WriteRest(a, n, h, k);
      ghost var u := arena[..];
      AddrBound(bs, k);
      WriteHeader(a, Header(n, base + (a + HEADER + n), false));
      SplitHead(u, arena[..], bs, base, k, n);
      KeepsTrans(s, u, arena[..], bs);
      blocks := Take(bs, k, n);
    }

    /** The remainder's header, not yet linked in. */
    method WriteRest(a: nat, n: nat, h: Header, ghost k: nat)
      requires Chained() && k < |blocks| && a == Addr(blocks, k) && h == HeaderOf(blocks, k, base)
      requires blocks[k].free && Splits(blocks[k], n)
      modifies arena
      ensures Chained() && Holds(arena[..], a + HEADER + n, RestHeader(blocks, base, k, n))
      ensures KeepsLive(old(arena[..]), arena[..], blocks)
    {
      AddrBound(blocks, k);
      HeaderStorable(blocks, k, base);
      WriteHeader(a + HEADER + n, Header(h.size - n - HEADER, h.next, true));
      SplitRest(old(arena[..]), arena[..], blocks, base, k, n);
    }

    /** The first-fit walk: the offset of the first block that fits, or -1. */
    method Search(n: nat) returns (a: int)
      requires Chained()
      ensures var k := FirstFit(blocks, n, 0); a == if k < |blocks| then Addr(blocks, k) else -1
    {
      var b := first;
      ghost var k := 0;
      assert blocks[..0] == [];
      while b != 0
        invariant k <= |blocks| && b == if k < |blocks| then base + Addr(blocks, k) else 0
        invariant FirstFit(blocks, n, k) == FirstFit(blocks, n, 0)
        decreases |blocks| - k
      {
        var h := ReadHeader(b - base, k);
        if h.available && h.size >= n { return b - base; }
        b, k := h.next, k + 1;
      }
      a := -1;
    }

    /** `malloc`: null exactly when no free block holds the rounded size. */
    method Malloc(request: u64) returns (p: nat)
      requires Valid()
      modifies this, arena
      ensures Valid() && blocks == H.Malloc(old(blocks), request)
      ensures p == 0 <==> NoneFits(old(blocks), Rounded(request))
      ensures p != 0 ==> Granted(old(blocks), blocks, request, p - base) && first != 0
      ensures p != 0 ==> p % 16 == 0
      ensures old(first) != 0 ==> first == old(first)
      ensures KeepsLive(old(arena[..]), arena[..], old(blocks))
    {
      InitialKeeps(arena[..], arena[..]);
      if first == 0 { Reset(); }
      if request > ARENA - HEADER {
        TooLarge(blocks, request);
        return 0;
      }
      p := Grant(request);
    }

    /** The search of `malloc` and what it takes. */
    method Grant(request: nat) returns (p: nat)
      requires Valid() && first != 0 && request <= ARENA - HEADER
      modifies this`blocks, arena
      ensures Valid() && blocks == H.Malloc(old(blocks), request)
      ensures p == 0 <==> NoneFits(old(blocks), Rounded(request))
      ensures p != 0 ==> Granted(old(blocks), blocks, request, p - base) && p % 16 == 0
      ensures KeepsLive(old(arena[..]), arena[..], old(blocks))
    {
      var n := Rounded(request);
      var a := Search(n);
      if a < 0 { return 0; }
      ghost var bs := blocks;
      ghost var k := FirstFit(bs, n, 0);
      Claim(a, n, k);
      Untouched(bs, k, n);
      AddrAligned(blocks, k);
      p := base + a + HEADER;
    }

    /** `free`: releases block `k` and joins free neighbours over the whole list. */
    method Free(ptr: nat, ghost k: nat)
      requires Valid() && Owned(ptr, k)
      modifies this`blocks, arena
      ensures Valid()
      ensures ptr == 0 ==> blocks == old(blocks) && arena[..] == old(arena[..])
      ensures ptr != 0 ==> blocks == Release(old(blocks), k)
      ensures ptr != 0 ==> KeepsLive(old(arena[..]), arena[..], Others(old(blocks), k))
    {
      if ptr == 0 { return; }
      ghost var s, bs := arena[..], blocks;
      ReleaseWf(bs, k);
      Mark(ptr - HEADER - base, k);
      ghost var t := arena[..];
      Join(Release(bs, k));
      KeepsTrans(s, t, arena[..], Others(bs, k));
    }

    /** Sets the available flag of block `k`; neighbours may now both be free. */
    method Mark(a: nat, ghost k: nat)
      requires Chained() && k < |blocks| && a == Addr(blocks, k)
      modifies this`blocks, arena
      ensures Chained() && blocks == Others(old(blocks), k)
      ensures KeepsLive(old(arena[..]), arena[..], blocks)
    {
      ghost var s, bs := arena[..], blocks;
      AddrBound(bs, k);
      var h := ReadHeader(a, k);
      HeaderStorable(bs, k, base);
      WriteHeader(a, h.(available := true));
      blocks := Others(bs, k);
      MarkLinked(s, arena[..], bs, base, k, true);
      UpdateTotal(bs, k, Block(bs[k].size, true));
      WriteKeeps(s, arena[..], bs, k, a, HEADER);
      OthersWithin(bs, k);
      KeepsFewer(s, arena[..], blocks, bs);
    }

    /** The coalescing pass of `free`. */
    method Join(ghost goal: seq<Block>)
      requires Chained() && goal == Coalesce(blocks) && Wf(goal) && |blocks| > 0
      modifies this`blocks, arena
      ensures Valid() && blocks == goal
      ensures KeepsLive(old(arena[..]), arena[..], old(blocks))
    {
      var a := first - base;
      ghost var k := 0;
      assert blocks[..0] == [] && blocks[0..] == blocks;
      var h := ReadHeader(a, 0);
      while h.next != 0
        invariant Chained() && k < |blocks| && a == Addr(blocks, k) && h == HeaderOf(blocks, k, base)
        invariant blocks[..k] + Coalesce(blocks[k..]) == goal
        invariant LiveWithin(old(blocks), blocks) && KeepsLive(old(arena[..]), arena[..], old(blocks))
        decreases |blocks| - k
      {
        var g := ReadHeader(h.next - base, k + 1);
        CoalesceStep(blocks, k, goal);
        if h.available && g.available {
          ghost var t, cs := arena[..], blocks;
          h := Absorb(a, h, g, k);
          KeepsOn(old(arena[..]), t, arena[..], old(blocks), cs);
          WithinTrans(old(blocks), cs, blocks);
        } else {
          a, k, h := h.next - base, k + 1, g;
        }
      }
      LastBlock(blocks, k);
    }

    /** Joins the free block `k` with its free neighbour. */
    method Absorb(a: nat, mine: Header, other: Header, ghost k: nat) returns (h: Header)
      requires Chained() && k + 1 < |blocks| && a == Addr(blocks, k) && blocks[k].free && blocks[k + 1].free
      requires mine == HeaderOf(blocks, k, base) && other == HeaderOf(blocks, k + 1, base)
      modifies this`blocks, arena
      ensures Chained() && blocks == Merge(old(blocks), k) && a == Addr(blocks, k)
      ensures h == HeaderOf(blocks, k, base) && LiveWithin(old(blocks), blocks)
      ensures KeepsLive(old(arena[..]), arena[..], old(blocks))
    {
      ghost var s, bs := arena[..], blocks;
      AddrBound(bs, k);
      MergeTotal(bs, k);
      MergeHeader(bs, base, k, k);
      HeaderStorable(Merge(bs, k), k, base);
      h := Header(mine.size + HEADER + other.size, other.next, true);
      WriteHeader(a, h);
      MergeLinked(s, arena[..], bs, base, k);
      MergeAddr(bs, k, k);
      MergeWithin(bs, k);
      WriteKeeps(s, arena[..], bs, k, a, HEADER);
      blocks := Merge(bs, k);
    }

    /** memcpy of `n` payload bytes from block `j` to block `k`. */
    method Copy(from: nat, to: nat, n: nat, ghost j: nat, ghost k: nat)
      requires Valid() && first != 0 && j < |blocks| && k < |blocks|
      requires from == Addr(blocks, j) + HEADER && n <= blocks[j].size
      requires to == Addr(blocks, k) + HEADER && n <= blocks[k].size
      modifies arena
      ensures Valid() && to + n <= ARENA && from + n <= ARENA
      ensures arena[..] == Paste(old(arena[..]), to, old(arena[..])[from..from + n])
    {
      ghost var s := arena[..];
      AddrBound(blocks, j);
      AddrBound(blocks, k);
      MoveBytes(from, to, n);
      CutPaste(s, to, s[from..from + n]);
      PayloadWrite(s, arena[..], blocks, base, k, to, n);
    }

    method MoveBytes(from: nat, to: nat, n: nat)
      requires from + n <= arena.Length && to + n <= arena.Length
      modifies arena
      ensures arena[..] == Paste(old(arena[..]), to, old(arena[..])[from..from + n])
    {
      Fill(to, arena[from..from + n]);
    }

    /** `realloc` of the live block `k` (or of null). */
    method Realloc(ptr: nat, size: u64, ghost k: nat) returns (p: nat)
      requires Valid() && Owned(ptr, k)
      modifies this, arena
      ensures Valid()
      ensures ptr == 0 ==> blocks == if size == 0 then old(blocks) else H.Malloc(old(blocks), size)
      ensures ptr == 0 ==> KeepsLive(old(arena[..]), arena[..], old(blocks))
      ensures ptr != 0 ==> blocks == Apply(old(blocks), H.Realloc(k, size))
      ensures ptr != 0 ==> KeepsLive(old(arena[..]), arena[..], Others(old(blocks), k))
      ensures size == 0 ==> p == 0
      ensures ptr == 0 && size != 0 ==> (p == 0 <==> NoneFits(old(blocks), Rounded(size)))
      ensures ptr == 0 && p != 0 ==> Granted(old(blocks), blocks, size, p - base)
      ensures ptr != 0 && size != 0 ==> (p == 0 <==> old(blocks)[k].size < size && NoneFits(old(blocks), Rounded(size)))
      ensures size != 0 && p == 0 ==> KeepsLive(old(arena[..]), arena[..], old(blocks))
      ensures ptr != 0 && p != 0 ==> Resized(old(arena[..]), arena[..], old(blocks), base, ptr, k, size, p)
    {
      if size == 0 { Free(ptr, k); return 0; }
      if ptr == 0 { p := Malloc(size); return; }
      p := Resize(ptr, size, k);
    }

    /** `realloc` proper: keep a block that is large enough, move the others. */
    method Resize(ptr: nat, size: u64, ghost k: nat) returns (p: nat)
      requires Valid() && ptr != 0 && size != 0 && Owned(ptr, k)
      modifies this, arena
      ensures Valid() && blocks == Apply(old(blocks), H.Realloc(k, size))
      ensures p == 0 <==> old(blocks)[k].size < size && NoneFits(old(blocks), Rounded(size))
      ensures p == 0 ==> KeepsLive(old(arena[..]), arena[..], old(blocks))
      ensures p != 0 ==> Resized(old(arena[..]), arena[..], old(blocks), base, ptr, k, size, p)
      ensures KeepsLive(old(arena[..]), arena[..], Others(old(blocks), k))
    {
      var h := ReadHeader(ptr - HEADER - base, k);
      if h.size >= size {
        p := ptr;
        Unmoved(arena[..], blocks, base, ptr, k, size);
      } else {
        p := Regrow(ptr, size, h.size, k);
      }
    }

    /** The moving case of `realloc`: allocate, copy, release. */
    method Regrow(ptr: nat, size: u64, was: nat, ghost k: nat) returns (p: nat)
      requires Valid() && ptr != 0 && Owned(ptr, k) && was == blocks[k].size < size
      modifies this, arena
      ensures Valid() && blocks == Grow(old(blocks), k, size)
      ensures p == 0 <==> NoneFits(old(blocks), Rounded(size))
      ensures p == 0 ==> KeepsLive(old(arena[..]), arena[..], old(blocks))
      ensures p != 0 ==> Resized(old(arena[..]), arena[..], old(blocks), base, ptr, k, size, p)
      ensures KeepsLive(old(arena[..]), arena[..], Others(old(blocks), k))
    {
      ghost var s, bs := arena[..], blocks;
      p := Malloc(size);
      if p == 0 {
        RegrowFails(s, arena[..], bs, k, size);
      } else {
        Replace(ptr, p, size, was, s, bs, k);
      }
    }

    /** The new block is there: move the bytes and release the old one. */
    method Replace(ptr: nat, p: nat, size: nat, was: nat, ghost s: seq<u8>, ghost bs: seq<Block>, ghost k: nat)
      requires Valid() && first != 0 && k < |bs| && was == bs[k].size < size && !bs[k].free && Total(bs) == ARENA
      requires blocks == H.Malloc(bs, size) && Granted(bs, blocks, size, p - base) && size <= ARENA - HEADER
      requires ptr == base + Addr(bs, k) + HEADER && KeepsLive(s, arena[..], bs)
      modifies this`blocks, arena
      ensures Valid() && blocks == Grow(bs, k, size)
      ensures Resized(s, arena[..], bs, base, ptr, k, size, p)
    {
      GrowIs(bs, k, size);
      Relocate(ptr, p - base, was, s, bs, FirstFit(bs, Rounded(size), 0), Rounded(size), k);
    }

    /** Copies block `k`'s payload into the block just taken from block `j`, and releases it. */
    method Relocate(ptr: nat, to: nat, was: nat, ghost s: seq<u8>, ghost bs: seq<Block>,
                    ghost j: nat, ghost n: nat, ghost k: nat)
      requires Valid() && first != 0 && j < |bs| && k < |bs| && j != k && Fits(bs[j], n)
      requires blocks == Take(bs, j, n) && was == bs[k].size <= n && !bs[k].free && Total(bs) == ARENA
      requires ptr == base + Addr(bs, k) + HEADER && to == Addr(bs, j) + HEADER
      requires KeepsLive(s, arena[..], bs)
      modifies this`blocks, arena
      ensures Valid() && blocks == Release(Take(bs, j, n), Moved(bs, j, n, k))
      ensures KeepsLive(s, arena[..], Others(bs, k))
      ensures Moves(s, arena[..], ptr - base, to, was)
    {
      ghost var t, m := arena[..], Moved(bs, j, n, k);
      AddrBound(bs, k);
      MovedAddr(bs, j, n, k);
      Untouched(bs, j, n);
      PayloadKept(s, t, bs, k, was);
      Copy(ptr - base, to, was, m, j);
      ghost var u := arena[..];
      Free(ptr, m);
      RegrowFrame(s, t, u, arena[..], bs, j, n, k, was);
    }

    /** `calloc`: a zeroed block, or null when the product overflows or does not fit. */
    method Calloc(count: u64, size: u64) returns (p: nat)
      requires Valid()
      modifies this, arena
      ensures Valid()
      ensures blocks == if count * size >= 0x1_0000_0000_0000_0000 then old(blocks) else H.Malloc(old(blocks), count * size)
      ensures p != 0 ==> Granted(old(blocks), blocks, count * size, p - base)
      ensures p != 0 ==> base <= p && p - base + count * size <= ARENA
      ensures p != 0 ==> arena[p - base..p - base + count * size] == Bytes(0, count * size)
      ensures p == 0 <==> count * size >= 0x1_0000_0000_0000_0000 || NoneFits(old(blocks), Rounded(count * size))
      ensures KeepsLive(old(arena[..]), arena[..], old(blocks))
    {
      ProductCheck(count, size);
      InitialKeeps(arena[..], arena[..]);
      if count != 0 && size > 0xFFFF_FFFF_FFFF_FFFF / count { return 0; }
      ghost var bs := blocks;
      p := Malloc(count * size);
      if p != 0 { Clear(p - base, count * size, FirstFit(bs, Rounded(count * size), 0), bs); }
    }

    /** A program's store into the live block `k` it holds. */
    method Store(ptr: nat, at: nat, text: seq<u8>, ghost k: nat)
      requires Valid() && ptr != 0 && Owned(ptr, k) && at + |text| <= blocks[k].size
      modifies arena
      ensures Valid() && ptr - base + at + |text| <= ARENA
      ensures SameBut(old(arena[..]), arena[..], ptr - base + at, |text|)
      ensures arena[ptr - base + at..ptr - base + at + |text|] == text
    {
      AddrBound(blocks, k);
      var a := ptr - base + at;
      FillAt(a, text);
      PayloadWrite(old(arena[..]), arena[..], blocks, base, k, a, |text|);
    }

    method FillAt(at: nat, text: seq<u8>)
      requires at + |text| <= arena.Length
      modifies arena
      ensures SameBut(old(arena[..]), arena[..], at, |text|) && arena[at..at + |text|] == text
    {
      Fill(at, text);
      CutPaste(old(arena[..]), at, text);
    }

    /** memset of the payload of the freshly taken block `j`. */
    method Clear(a: nat, n: nat, ghost j: nat, ghost bs: seq<Block>)
      requires Valid() && first != 0 && j < |blocks| && a == Addr(blocks, j) + HEADER && n <= blocks[j].size
      requires j < |bs| && bs[j].free && Addr(bs, j) == Addr(blocks, j) && n <= bs[j].size
      modifies arena
      ensures Valid() && a + n <= ARENA && arena[a..a + n] == Bytes(0, n)
      ensures KeepsLive(old(arena[..]), arena[..], bs)
    {
      ghost var s := arena[..];
      AddrBound(blocks, j);
      ZeroBytes(n);
      Fill(a, Bytes(0, n));
      CutPaste(s, a, Bytes(0, n));
      PayloadWrite(s, arena[..], blocks, base, j, a, n);
      WriteKeeps(s, arena[..], bs, j, a, n);
    }
  }

  // ----- lemmas about positions

  /** What a growing `realloc` takes and where it goes. */
  lemma {:induction false} GrowIs(bs: seq<Block>, k: nat, size: nat)
    requires k < |bs| && !bs[k].free && size <= ARENA - HEADER && FirstFit(bs, Rounded(size), 0) < |bs|
    ensures var n, j := Rounded(size), FirstFit(bs, Rounded(size), 0);
      && j != k && Addr(bs, j) != Addr(bs, k) && Fits(bs[j], n)
      && H.Malloc(bs, size) == Take(bs, j, n)
      && Grow(bs, k, size) == Release(Take(bs, j, n), Moved(bs, j, n, k))
      && LiveHolding(Grow(bs, k, size), Addr(bs, j), size)
  {
    Differ(bs, FirstFit(bs, Rounded(size), 0), k);
    GrowGrants(bs, k, size);
  }

  lemma {:induction false} PasteMore(s: seq<u8>, at: nat, text: seq<u8>, i: nat)
    requires at + |text| <= |s| && i < |text|
    ensures Paste(s, at, text[..i])[at + i := text[i]] == Paste(s, at, text[..i + 1])
  {
  }

  ghost predicate NoneFits(bs: seq<Block>, n: nat) { forall i :: 0 <= i < |bs| ==> !Fits(bs[i], n) }

  /** Payload offset `a` is that of the first block that fits the request. */
  ghost predicate AtFirstFit(bs: seq<Block>, request: nat, a: int)
  {
    var k := FirstFit(bs, Rounded(request), 0); k < |bs| && a == Addr(bs, k) + HEADER
  }

  /** A successful request: the first block that fits now holds it, live, at payload offset `a`. */
  ghost predicate Granted(bs: seq<Block>, cs: seq<Block>, request: nat, a: int)
  {
    var k := FirstFit(bs, Rounded(request), 0);
    && k < |bs| && k < |cs| && Addr(cs, k) == Addr(bs, k) && a == Addr(cs, k) + HEADER
    && !cs[k].free && cs[k].size >= Rounded(request) >= request
  }

  /** The first `n` bytes at `from` before are the first `n` bytes at `to` afterwards. */
  predicate Moves(s: seq<u8>, t: seq<u8>, from: int, to: int, n: nat)
  {
    && 0 <= from && from + n <= |s| && 0 <= to && to + n <= |t|
    && t[to..to + n] == s[from..from + n]
  }

  /** The claimed block keeps its place. */
  lemma {:induction false} Untouched(bs: seq<Block>, k: nat, n: nat)
    requires k < |bs|
    ensures var cs := Take(bs, k, n); k < |cs| && Addr(cs, k) == Addr(bs, k) && !cs[k].free
    ensures n <= bs[k].size ==> Take(bs, k, n)[k].size >= n
  {
    var cs := Take(bs, k, n);
    assert cs[..k] == bs[..k];
  }

  lemma {:induction false} Differ(bs: seq<Block>, j: nat, k: nat)
    requires j < |bs| && k < |bs|
    ensures j != k ==> Addr(bs, j) != Addr(bs, k)
  {
    if j != k { Apart(bs, j, k); }
  }

  lemma {:induction false} GrowFails(bs: seq<Block>, k: nat, size: nat)
    requires k < |bs| && NoneFits(bs, Rounded(size))
    ensures Grow(bs, k, size) == bs
  {
  }

  lemma {:induction false} TooLarge(bs: seq<Block>, request: nat)
    requires Wf(bs) && request > ARENA - HEADER
    ensures NoneFits(bs, Rounded(request)) && H.Malloc(bs, request) == bs
  {
    MallocWf(bs, request);
  }

  /** Header offset of the block behind a pointer. */
  function HeaderOffset(base: nat, p: nat): int { p - base - HEADER }

  /** A `realloc` of block `k`, behind `q`, that answers `p`: the same pointer if the block is large
      enough, else that of the first fit; the payload is there, and every other live byte is kept. */
  ghost predicate Resized(s: seq<u8>, t: seq<u8>, bs: seq<Block>, base: nat, q: nat, k: nat, size: nat, p: nat)
  {
    && k < |bs| && !bs[k].free && size > 0 && HeaderOffset(base, q) == Addr(bs, k)
    && KeepsLive(s, t, Others(bs, k)) && (p == q <==> bs[k].size >= size)
    && (p != q ==> AtFirstFit(bs, size, p - base))
    && LiveHolding(Apply(bs, H.Realloc(k, size)), HeaderOffset(base, p), size)
    && Moves(s, t, q - base, p - base, bs[k].size)
  }

  /** A block that is large enough stays. */
  lemma {:induction false} Unmoved(s: seq<u8>, bs: seq<Block>, base: nat, q: nat, k: nat, size: nat)
    requires k < |bs| && !bs[k].free && bs[k].size >= size > 0 && |s| == ARENA == Total(bs)
    requires HeaderOffset(base, q) == Addr(bs, k)
    ensures Resized(s, s, bs, base, q, k, size, q)
  {
    AddrBound(bs, k);
    LiveIndex(bs, k);
  }

  lemma {:induction false} RegrowFails(s: seq<u8>, t: seq<u8>, bs: seq<Block>, k: nat, size: nat)
    requires k < |bs| && NoneFits(bs, Rounded(size)) && KeepsLive(s, t, bs)
    ensures Grow(bs, k, size) == bs == H.Malloc(bs, size) && KeepsLive(s, t, Others(bs, k))
  {
    GrowFails(bs, k, size);
    OthersWithin(bs, k);
    KeepsFewer(s, t, Others(bs, k), bs);
  }

  lemma {:induction false} LastBlock(bs: seq<Block>, k: nat)
    requires k + 1 == |bs|
    ensures bs[..k] + Coalesce(bs[k..]) == bs
  {
    assert bs[k..] == [bs[k]];
  }

  /** One turn of the coalescing pass, as `Coalesce` sees it. */
  lemma {:induction false} CoalesceStep(bs: seq<Block>, k: nat, goal: seq<Block>)
    requires k + 1 < |bs| && bs[..k] + Coalesce(bs[k..]) == goal
    ensures if bs[k].free && bs[k + 1].free
      then Merge(bs, k)[..k] + Coalesce(Merge(bs, k)[k..]) == goal
      else bs[..k + 1] + Coalesce(bs[k + 1..]) == goal
  {
    var rest := bs[k..];
    if bs[k].free && bs[k + 1].free {
      assert Merge(bs, k)[..k] == bs[..k];
      assert Merge(bs, k)[k..] == [Block(rest[0].size + HEADER + rest[1].size, true)] + rest[2..];
    } else {
      assert rest[1..] == bs[k + 1..];
      assert bs[..k + 1] == bs[..k] + [rest[0]];
    }
  }

  /** Allocate (s to t), copy (t to u), release (u to v): the moved bytes and all other live bytes
      arrive intact. */
  lemma {:induction false} RegrowFrame(s: seq<u8>, t: seq<u8>, u: seq<u8>, v: seq<u8>,
                                       bs: seq<Block>, j: nat, n: nat, k: nat, was: nat)
    requires j < |bs| && k < |bs| && j != k && Fits(bs[j], n) && was == bs[k].size <= n && !bs[k].free
    requires |s| == ARENA == Total(bs) && Addr(bs, k) + HEADER + was <= ARENA
    requires KeepsLive(s, t, bs)
    requires var from, to := Addr(bs, k) + HEADER, Addr(bs, j) + HEADER;
      to + was <= ARENA && t[from..from + was] == s[from..from + was] && u == Paste(t, to, t[from..from + was])
    requires KeepsLive(u, v, Others(Take(bs, j, n), Moved(bs, j, n, k)))
    ensures KeepsLive(s, v, Others(bs, k))
    ensures Moves(s, v, Addr(bs, k) + HEADER, Addr(bs, j) + HEADER, was)
  {
    var from, to, os := Addr(bs, k) + HEADER, Addr(bs, j) + HEADER, Others(bs, k);
    OthersWithin(bs, k);
    KeepsFewer(s, t, os, bs);
    CutPaste(t, to, t[from..from + was]);
    WriteKeeps(t, u, bs, j, to, was);
    KeepsFewer(t, u, os, bs);
    KeepsTrans(s, t, u, os);
    TakeOthers(bs, j, n, k);
    TakeWithin(os, j, n);
    var ds := Take(os, j, n);
    KeepsFewer(u, v, os, ds);
    KeepsTrans(s, u, v, os);
    Untouched(os, j, n);
    MarkAddr(bs, k, true, j);
    PayloadKept(u, v, ds, j, was);
    CutPaste(t, to, t[from..from + was]);
  }

  lemma {:induction false} ZeroBytes(n: nat)
    ensures forall i :: 0 <= i < n ==> Bytes(0, n)[i] == 0
  {
    if n > 0 { ZeroBytes(n - 1); }
  }

  lemma {:induction false} ProductCheck(count: u64, size: u64)
    ensures count != 0 && size > 0xFFFF_FFFF_FFFF_FFFF / count <==> count * size >= 0x1_0000_0000_0000_0000
  {
    if count != 0 {
      var q := 0xFFFF_FFFF_FFFF_FFFF / count;
      var r := 0xFFFF_FFFF_FFFF_FFFF % count;
      assert 0xFFFF_FFFF_FFFF_FFFF == q * count + r;
      MulMono(size, q, count);
      MulMono(q + 1, size, count);
      assert (q + 1) * count == q * count + count;
      assert size * count == count * size;
    }
  }
}
