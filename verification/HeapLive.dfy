/** The heap as its users see it: the set of live blocks, by address and size, that every call
    changes by exactly the block it grants or releases. */
module HeapLive {
  import opened HeapModel
  import opened HeapLayout

  /** A live block of `n` payload bytes has its header at offset `a`. */
  predicate LiveAt(bs: seq<Block>, a: int, n: nat)
  {
    bs != [] && ((a == 0 && !bs[0].free && bs[0].size == n) || LiveAt(bs[1..], a - HEADER - bs[0].size, n))
  }

  lemma {:induction false} AddrFront(bs: seq<Block>, i: nat)
    requires i < |bs|
    ensures Addr(bs, i + 1) == HEADER + bs[0].size + Addr(bs[1..], i) && Addr(bs, 0) == 0
  {
    TotalConcat([bs[0]], bs[1..][..i]);
    TotalOne(bs[0]);
    assert bs[..i + 1] == [bs[0]] + bs[1..][..i];
  }

  lemma {:induction false} LiveBound(bs: seq<Block>, a: int, n: nat)
    requires LiveAt(bs, a, n)
    ensures a >= 0
  {
    if !(a == 0 && !bs[0].free && bs[0].size == n) { LiveBound(bs[1..], a - HEADER - bs[0].size, n); }
  }

  lemma {:induction false} LiveIndex(bs: seq<Block>, i: nat)
    requires i < |bs| && !bs[i].free
    ensures LiveAt(bs, Addr(bs, i), bs[i].size)
  {
    AddrFront(bs, 0);
    if i > 0 {
      AddrFront(bs, i - 1);
      LiveIndex(bs[1..], i - 1);
    }
  }

  lemma {:induction false} IndexLive(bs: seq<Block>, a: int, n: nat) returns (i: nat)
    requires LiveAt(bs, a, n)
    ensures i < |bs| && !bs[i].free && Addr(bs, i) == a && bs[i].size == n
  {
    AddrFront(bs, 0);
    if a == 0 && !bs[0].free && bs[0].size == n {
      i := 0;
    } else {
      var j := IndexLive(bs[1..], a - HEADER - bs[0].size, n);
      AddrFront(bs, j);
      i := j + 1;
    }
  }

  /** It is what the block list says. */
  lemma {:induction false} LiveMeans(bs: seq<Block>, a: int, n: nat)
    ensures LiveAt(bs, a, n) <==> exists i :: 0 <= i < |bs| && !bs[i].free && Addr(bs, i) == a && bs[i].size == n
  {
    if LiveAt(bs, a, n) { var i := IndexLive(bs, a, n); }
    forall i | 0 <= i < |bs| && !bs[i].free && Addr(bs, i) == a && bs[i].size == n ensures LiveAt(bs, a, n) {
      LiveIndex(bs, i);
    }
  }

  /** Joining free neighbours neither moves nor loses nor invents a live block. */
  lemma {:induction false} CoalesceLive(bs: seq<Block>, a: int, n: nat)
    ensures LiveAt(Coalesce(bs), a, n) <==> LiveAt(bs, a, n)
    decreases |bs|
  {
    if |bs| < 2 {
    } else if bs[0].free && bs[1].free {
      var joined := Block(bs[0].size + HEADER + bs[1].size, true);
      var cs := [joined] + bs[2..];
      CoalesceLive(cs, a, n);
      assert cs[1..] == bs[2..] && bs[1..][1..] == bs[2..];
      assert LiveAt(cs, a, n) <==> LiveAt(bs[2..], a - HEADER - joined.size, n);
    } else {
      CoalesceLive(bs[1..], a - HEADER - bs[0].size, n);
      assert ([bs[0]] + Coalesce(bs[1..]))[1..] == Coalesce(bs[1..]);
    }
  }

  lemma {:induction false} FreedLive(bs: seq<Block>, k: nat, a: int, n: nat)
    requires k < |bs|
    ensures LiveAt(bs[k := Block(bs[k].size, true)], a, n) <==> LiveAt(bs, a, n) && a != Addr(bs, k)
  {
    var cs := bs[k := Block(bs[k].size, true)];
    AddrFront(bs, 0);
    if k == 0 {
      assert cs[1..] == bs[1..];
      if LiveAt(bs[1..], a - HEADER - bs[0].size, n) { LiveBound(bs[1..], a - HEADER - bs[0].size, n); }
    } else {
      AddrFront(bs, k - 1);
      assert cs[1..] == bs[1..][k - 1 := Block(bs[k].size, true)];
      FreedLive(bs[1..], k - 1, a - HEADER - bs[0].size, n);
    }
  }

  /** `free` takes away exactly the block it is given. */
  lemma {:induction false} ReleaseLive(bs: seq<Block>, k: nat, a: int, n: nat)
    requires k < |bs|
    ensures LiveAt(Release(bs, k), a, n) <==> LiveAt(bs, a, n) && a != Addr(bs, k)
  {
    CoalesceLive(bs[k := Block(bs[k].size, true)], a, n);
    FreedLive(bs, k, a, n);
  }

  function TakenSize(b: Block, n: nat): nat { if Splits(b, n) then n else b.size }

  lemma {:induction false} TakeLive(bs: seq<Block>, k: nat, n: nat, a: int, m: nat)
    requires k < |bs| && bs[k].free
    ensures LiveAt(Take(bs, k, n), a, m) <==> LiveAt(bs, a, m) || (a == Addr(bs, k) && m == TakenSize(bs[k], n))
    decreases k
  {
    var cs := Take(bs, k, n);
    AddrFront(bs, 0);
    if k == 0 {
      if Splits(bs[0], n) {
        assert cs[1..] == [Block(bs[0].size - n - HEADER, true)] + bs[1..];
        assert cs[1..][1..] == bs[1..];
      } else {
        assert cs[1..] == bs[1..];
      }
    } else {
      AddrFront(bs, k - 1);
      assert cs[1..] == Take(bs[1..], k - 1, n);
      TakeLive(bs[1..], k - 1, n, a - HEADER - bs[0].size, m);
    }
  }

  /** `malloc` adds exactly the block it grants, and nothing when it fails. */
  lemma {:induction false} MallocLive(bs: seq<Block>, size: nat, a: int, m: nat)
    ensures var k := FirstFit(bs, Rounded(size), 0);
      LiveAt(Malloc(bs, size), a, m) <==>
        LiveAt(bs, a, m) ||
        (size <= ARENA - HEADER && k < |bs| && a == Addr(bs, k) && m == TakenSize(bs[k], Rounded(size)))
  {
    var k := FirstFit(bs, Rounded(size), 0);
    if size <= ARENA - HEADER && k < |bs| { TakeLive(bs, k, Rounded(size), a, m); }
  }

  /** A growing `realloc` replaces its block by the one it grants; when it fails nothing changes. */
  lemma {:induction false} GrowLive(bs: seq<Block>, k: nat, size: nat, a: int, m: nat)
    requires k < |bs| && !bs[k].free
    ensures var j := FirstFit(bs, Rounded(size), 0);
      LiveAt(Grow(bs, k, size), a, m) <==>
        if size <= ARENA - HEADER && j < |bs|
        then (LiveAt(bs, a, m) && a != Addr(bs, k)) || (a == Addr(bs, j) && m == TakenSize(bs[j], Rounded(size)))
        else LiveAt(bs, a, m)
  {
    var n := Rounded(size);
    var j := FirstFit(bs, n, 0);
    if size <= ARENA - HEADER && j < |bs| {
      MovedAddr(bs, j, n, k);
      ReleaseLive(Take(bs, j, n), Moved(bs, j, n, k), a, m);
      TakeLive(bs, j, n, a, m);
      Apart(bs, j, k);
    }
  }

  /** A live block at `a` holds at least `n` bytes. */
  ghost predicate LiveHolding(bs: seq<Block>, a: int, n: nat) { exists m: nat :: LiveAt(bs, a, m) && m >= n }

  lemma {:induction false} GrowGrants(bs: seq<Block>, k: nat, size: nat)
    requires k < |bs| && !bs[k].free && size <= ARENA - HEADER && FirstFit(bs, Rounded(size), 0) < |bs|
    ensures LiveHolding(Grow(bs, k, size), Addr(bs, FirstFit(bs, Rounded(size), 0)), size)
  {
    var j := FirstFit(bs, Rounded(size), 0);
    GrowLive(bs, k, size, Addr(bs, j), TakenSize(bs[j], Rounded(size)));
  }

  /** Once every block handed out has been given back, whatever the calls were, the heap is the
      single initial block again. */
  lemma {:induction false} FreedHistory(calls: seq<Call>)
    requires forall a, m :: !LiveAt(History(calls), a, m)
    ensures History(calls) == INITIAL
  {
    var bs := History(calls);
    HistoryWf(calls);
    forall i | 0 <= i < |bs| ensures bs[i].free {
      if !bs[i].free { LiveIndex(bs, i); }
    }
    AllFreeIsInitial(bs);
  }
}
