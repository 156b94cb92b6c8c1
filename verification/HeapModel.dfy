/** The allocator of jordyOS/ape/platform.c on its list of blocks in address order: first fit with
    splitting, release with coalescing.  A block is a 32-byte header followed by its payload. */
module HeapModel {

  const ARENA := 4 * 1024 * 1024
  const HEADER := 32

  datatype Block = Block(size: nat, free: bool)

  /** Bytes taken by a run of blocks, headers included. */
  function Total(bs: seq<Block>): nat
  {
    if bs == [] then 0 else Total(bs[..|bs| - 1]) + HEADER + bs[|bs| - 1].size
  }

  /** Arena offset of block `i`'s header; `Addr(bs, |bs|)` is the end of the last block. */
  function Addr(bs: seq<Block>, i: nat): nat
    requires i <= |bs|
  {
    Total(bs[..i])
  }

  predicate GoodSize(b: Block) { b.size >= 16 && b.size % 16 == 0 }

  predicate AllGood(bs: seq<Block>) { forall i :: 0 <= i < |bs| ==> GoodSize(bs[i]) }

  /** The blocks tile the arena, payloads are 16-byte multiples, no two free neighbours. */
  ghost predicate Wf(bs: seq<Block>)
  {
    && Total(bs) == ARENA
    && AllGood(bs)
    && NoFreeNeighbours(bs)
  }

  ghost predicate NoFreeNeighbours(bs: seq<Block>)
  {
    forall i, j :: 0 <= i && j == i + 1 && j < |bs| ==> !(bs[i].free && bs[j].free)
  }

  const INITIAL := [Block(ARENA - HEADER, true)]

  /** The size `malloc` looks for. */
  function Rounded(size: nat): (n: nat)
    ensures n >= 16 && n % 16 == 0 && n >= size
    ensures n < size + 16 || n == 16
  {
    var n := (size + 15) / 16 * 16;
    if n == 0 then 16 else n
  }

  predicate Fits(b: Block, n: nat) { b.free && b.size >= n }

  /** The first block from `i` on that fits, or |bs|. */
  function FirstFit(bs: seq<Block>, n: nat, i: nat): (k: nat)
    requires i <= |bs|
    ensures i <= k <= |bs| && (k < |bs| ==> Fits(bs[k], n))
    ensures forall j :: i <= j < k ==> !Fits(bs[j], n)
    decreases |bs| - i
  {
    if i == |bs| || Fits(bs[i], n) then i else FirstFit(bs, n, i + 1)
  }

  predicate Splits(b: Block, n: nat) { b.size >= n + HEADER + 16 }

  /** Takes `n` bytes from block `k`, leaving the rest as a new free block when it can stand alone. */
  function Take(bs: seq<Block>, k: nat, n: nat): seq<Block>
    requires k < |bs|
  {
    if Splits(bs[k], n) then
      bs[..k] + [Block(n, false), Block(bs[k].size - n - HEADER, true)] + bs[k + 1..]
    else bs[k := Block(bs[k].size, false)]
  }

  /** The block list after `malloc`. */
  function Malloc(bs: seq<Block>, size: nat): seq<Block>
  {
    var k := FirstFit(bs, Rounded(size), 0);
    if size > ARENA - HEADER || k == |bs| then bs else Take(bs, k, Rounded(size))
  }

  /** One left-to-right pass joining free neighbours. */
  function Coalesce(bs: seq<Block>): seq<Block>
    decreases |bs|
  {
    if |bs| < 2 then bs
    else if bs[0].free && bs[1].free then
      Coalesce([Block(bs[0].size + HEADER + bs[1].size, true)] + bs[2..])
    else [bs[0]] + Coalesce(bs[1..])
  }

  function Release(bs: seq<Block>, k: nat): seq<Block>
    requires k < |bs|
  {
    Coalesce(bs[k := Block(bs[k].size, true)])
  }

  // ----- sums of spans

  lemma {:induction false} TotalConcat(a: seq<Block>, b: seq<Block>)
    ensures Total(a + b) == Total(a) + Total(b)
  {
    if b == [] {
      assert a + b == a;
    } else {
      TotalConcat(a, b[..|b| - 1]);
      assert (a + b)[..|a + b| - 1] == a + b[..|b| - 1];
    }
  }

  lemma {:induction false} TotalOne(b: Block)
    ensures Total([b]) == HEADER + b.size
  {
    assert [b][..0] == [];
  }

  /** Headers of later blocks lie beyond the payloads of earlier ones. */
  lemma {:induction false} AddrStep(bs: seq<Block>, i: nat, j: nat)
    requires i < j <= |bs|
    ensures Addr(bs, i) + HEADER + bs[i].size <= Addr(bs, j)
    ensures j == i + 1 ==> Addr(bs, i) + HEADER + bs[i].size == Addr(bs, j)
    decreases j
  {
    assert bs[..j][..j - 1] == bs[..j - 1];
    if i < j - 1 { AddrStep(bs, i, j - 1); }
  }

  lemma {:induction false} AddrEnd(bs: seq<Block>)
    ensures Addr(bs, |bs|) == Total(bs)
  {
    assert bs[..|bs|] == bs;
  }

  // ----- malloc keeps the heap well formed

  lemma {:induction false} TakeTotal(bs: seq<Block>, k: nat, n: nat)
    requires k < |bs| && n <= bs[k].size
    ensures Total(Take(bs, k, n)) == Total(bs)
  {
    var a, b, c := bs[..k], bs[k], bs[k + 1..];
    if Splits(b, n) {
      SplitTotal(a, b, n, c);
      assert a + [b] + c == bs;
    } else {
      UpdateTotal(bs, k, Block(b.size, false));
    }
  }

  lemma {:induction false} SplitTotal(a: seq<Block>, b: Block, n: nat, c: seq<Block>)
    requires Splits(b, n)
    ensures Total(a + [Block(n, false), Block(b.size - n - HEADER, true)] + c) == Total(a + [b] + c)
  {
    TotalSplice(a, [b], c);
    TotalOne(b);
    var x, y := Block(n, false), Block(b.size - n - HEADER, true);
    TotalSplice(a, [x, y], c);
    TotalPair(x, y);
  }

  lemma {:induction false} TotalSplice(a: seq<Block>, mid: seq<Block>, b: seq<Block>)
    ensures Total(a + mid + b) == Total(a) + Total(mid) + Total(b)
  {
    TotalConcat(a + mid, b);
    TotalConcat(a, mid);
  }

  lemma {:induction false} TotalPair(x: Block, y: Block)
    ensures Total([x, y]) == 2 * HEADER + x.size + y.size
  {
    assert [x, y] == [x] + [y];
    TotalConcat([x], [y]);
    TotalOne(x);
    TotalOne(y);
  }

  /** Taking from a free block keeps the tiling, the alignment and the separation of free blocks. */
  lemma {:induction false} TakeWf(bs: seq<Block>, k: nat, n: nat)
    requires Wf(bs) && k < |bs| && Fits(bs[k], n) && n >= 16 && n % 16 == 0
    ensures Wf(Take(bs, k, n))
  {
    TakeTotal(bs, k, n);
    var cs := Take(bs, k, n);
    if Splits(bs[k], n) {
      forall i | 0 <= i < |cs| ensures GoodSize(cs[i]) {
        if i > k + 1 { assert cs[i] == bs[i - 1]; }
      }
      forall i, j | 0 <= i && j == i + 1 && j < |cs| ensures !(cs[i].free && cs[j].free) {
        if i > k { assert cs[j] == bs[j - 1]; }
        if i > k + 1 { assert cs[i] == bs[i - 1]; }
        if i == k + 1 { assert !bs[j - 1].free; }
      }
    }
  }

  /** Every request keeps the heap well formed; it changes nothing exactly when no block fits. */
  lemma {:induction false} MallocWf(bs: seq<Block>, size: nat)
    requires Wf(bs)
    ensures Wf(Malloc(bs, size))
    ensures Malloc(bs, size) == bs <==> forall i :: 0 <= i < |bs| ==> !Fits(bs[i], Rounded(size))
  {
    forall i | 0 <= i < |bs| && size > ARENA - HEADER ensures bs[i].size < size {
      AddrStep(bs, i, |bs|);
      AddrEnd(bs);
    }
    var k := FirstFit(bs, Rounded(size), 0);
    if size <= ARENA - HEADER && k < |bs| {
      TakeWf(bs, k, Rounded(size));
      var cs := Take(bs, k, Rounded(size));
      assert !cs[k].free && bs[k].free;
    }
  }

  // ----- free keeps the heap well formed

  lemma {:induction false} CoalesceTotal(bs: seq<Block>)
    ensures Total(Coalesce(bs)) == Total(bs)
    decreases |bs|
  {
    if |bs| >= 2 {
      var x, y := bs[0], bs[1];
      assert bs == [x] + bs[1..] && bs[1..] == [y] + bs[2..];
      TotalConcat([x], bs[1..]);
      TotalConcat([y], bs[2..]);
      TotalOne(x);
      TotalOne(y);
      if x.free && y.free {
        var z := Block(x.size + HEADER + y.size, true);
        CoalesceTotal([z] + bs[2..]);
        TotalConcat([z], bs[2..]);
        TotalOne(z);
      } else {
        CoalesceTotal(bs[1..]);
        TotalConcat([x], Coalesce(bs[1..]));
      }
    }
  }

  lemma {:induction false} CoalesceGood(bs: seq<Block>)
    requires AllGood(bs)
    ensures AllGood(Coalesce(bs))
    decreases |bs|
  {
    if |bs| >= 2 {
      assert GoodSize(bs[0]) && GoodSize(bs[1]);
      if bs[0].free && bs[1].free {
        CoalesceGood([Block(bs[0].size + HEADER + bs[1].size, true)] + bs[2..]);
      } else {
        CoalesceGood(bs[1..]);
      }
    }
  }

  lemma {:induction false} CoalesceSeparates(bs: seq<Block>)
    ensures NoFreeNeighbours(Coalesce(bs))
    ensures bs == [] <==> Coalesce(bs) == []
    ensures bs != [] ==> Coalesce(bs)[0].free == bs[0].free
    decreases |bs|
  {
    if |bs| >= 2 {
      if bs[0].free && bs[1].free {
        CoalesceSeparates([Block(bs[0].size + HEADER + bs[1].size, true)] + bs[2..]);
      } else {
        var cs := Coalesce(bs[1..]);
        CoalesceSeparates(bs[1..]);
        var ds := [bs[0]] + cs;
        forall i, j | 0 <= i && j == i + 1 && j < |ds| ensures !(ds[i].free && ds[j].free) {
          if i > 0 { assert ds[i] == cs[i - 1] && ds[j] == cs[j - 1]; }
        }
      }
    }
  }

  /** Releasing any block keeps the heap well formed. */
  lemma {:induction false} ReleaseWf(bs: seq<Block>, k: nat)
    requires Wf(bs) && k < |bs|
    ensures Wf(Release(bs, k))
  {
    var cs := bs[k := Block(bs[k].size, true)];
    UpdateTotal(bs, k, Block(bs[k].size, true));
    CoalesceTotal(cs);
    CoalesceGood(cs);
    CoalesceSeparates(cs);
  }

  lemma {:induction false} UpdateTotal(bs: seq<Block>, k: nat, b: Block)
    requires k < |bs| && b.size == bs[k].size
    ensures Total(bs[k := b]) == Total(bs)
  {
    assert bs == bs[..k] + [bs[k]] + bs[k + 1..];
    assert bs[k := b] == bs[..k] + [b] + bs[k + 1..];
    TotalSplice(bs[..k], [bs[k]], bs[k + 1..]);
    TotalSplice(bs[..k], [b], bs[k + 1..]);
    TotalOne(b);
    TotalOne(bs[k]);
  }

  /** Once everything is free again, the heap is the single initial block. */
  lemma {:induction false} AllFreeIsInitial(bs: seq<Block>)
    requires Wf(bs) && forall i :: 0 <= i < |bs| ==> bs[i].free
    ensures bs == INITIAL
  {
    assert |bs| < 2 by { if |bs| >= 2 { SomeLive(bs); } }
    if |bs| == 1 {
      TotalOne(bs[0]);
      assert bs == [bs[0]];
    }
  }

  lemma {:induction false} SomeLive(bs: seq<Block>)
    requires |bs| >= 2 && NoFreeNeighbours(bs)
    ensures exists i :: 0 <= i < |bs| && !bs[i].free
  {
    assert !bs[0].free || !bs[1].free;
  }

  lemma {:induction false} InitialWf()
    ensures Wf(INITIAL)
  {
    TotalOne(INITIAL[0]);
  }

  // ----- whole histories

  /** One call; `Free` and `Realloc` name the block by its position in address order. */
  datatype Call = Alloc(size: nat) | Free(k: nat) | Realloc(k: nat, size: nat)

  /** `realloc` of a live block that is too small: a new block, then the old one released.  The new
      block may come before the old one and shift its position. */
  function Grow(bs: seq<Block>, k: nat, size: nat): seq<Block>
    requires k < |bs|
  {
    var n := Rounded(size);
    var j := FirstFit(bs, n, 0);
    if size > ARENA - HEADER || j == |bs| then bs
    else
      var cs := Take(bs, j, n);
      Release(cs, Moved(bs, j, n, k))
  }

  /** Where block `k` stands after `n` bytes were taken from block `j`. */
  function Moved(bs: seq<Block>, j: nat, n: nat, k: nat): (r: nat)
    requires j < |bs| && k < |bs|
    ensures r < |Take(bs, j, n)|
    ensures k != j ==> Take(bs, j, n)[r] == bs[k]
  {
    if Splits(bs[j], n) && j < k then k + 1 else k
  }

  function Apply(bs: seq<Block>, c: Call): seq<Block>
  {
    match c
    case Alloc(size) => Malloc(bs, size)
    case Free(k) => if k < |bs| then Release(bs, k) else bs
    case Realloc(k, size) =>
      if k >= |bs| then bs
      else if size == 0 then Release(bs, k)
      else if bs[k].size >= size then bs
      else Grow(bs, k, size)
  }

  function History(calls: seq<Call>): seq<Block>
  {
    if calls == [] then INITIAL else Apply(History(calls[..|calls| - 1]), calls[|calls| - 1])
  }

  /** After every sequence of calls the blocks tile the arena with aligned payloads of at least 16
      bytes and no two free blocks touch. */
  lemma {:induction false} HistoryWf(calls: seq<Call>)
    ensures Wf(History(calls))
  {
    if calls == [] {
      InitialWf();
    } else {
      var bs, c := History(calls[..|calls| - 1]), calls[|calls| - 1];
      HistoryWf(calls[..|calls| - 1]);
      match c
      case Alloc(size) => MallocWf(bs, size);
      case Free(k) => if k < |bs| { ReleaseWf(bs, k); }
      case Realloc(k, size) => if k < |bs| { ReallocWf(bs, k, size); }
    }
  }

  lemma {:induction false} ReallocWf(bs: seq<Block>, k: nat, size: nat)
    requires Wf(bs) && k < |bs|
    ensures Wf(Apply(bs, Realloc(k, size)))
  {
    var n := Rounded(size);
    var j := FirstFit(bs, n, 0);
    ReleaseWf(bs, k);
    if size <= ARENA - HEADER && j < |bs| {
      TakeWf(bs, j, n);
      ReleaseWf(Take(bs, j, n), Moved(bs, j, n, k));
    }
  }
}
