/** The heap over whole programs: whatever a program allocates, stores, resizes and frees, in any order,
    every block it holds keeps the bytes it last stored there. */
module HeapScript {
  import opened Words
  import opened HeapModel
  import opened HeapLayout
  import opened HeapLive
  import opened Heap

  /** What a program does; a block is named by the number of the step that allocated it. */
  datatype Op =
    | Get(size: u64)
    | Drop(block: nat)
    | Change(block: nat, size: u64)
    | Put(block: nat, at: nat, text: seq<u8>)

  /** What it may expect to read: the bytes of each block it holds, `None` where it never wrote. */
  type Memory = map<nat, seq<Option<u8>>>

  function Unknown(n: nat): (c: seq<Option<u8>>)
    ensures |c| == n && forall i :: 0 <= i < n ==> c[i].None?
  {
    seq(n, _ => None)
  }

  /** Contents after a change of size. */
  function Kept(c: seq<Option<u8>>, size: nat): (d: seq<Option<u8>>)
    ensures |d| == size && forall i :: 0 <= i < size ==> d[i] == if i < |c| then c[i] else None
  {
    if size <= |c| then c[..size] else c + Unknown(size - |c|)
  }

  function Written(c: seq<Option<u8>>, at: nat, text: seq<u8>): (d: seq<Option<u8>>)
    requires at + |text| <= |c|
    ensures |d| == |c|
    ensures forall i :: 0 <= i < |c| ==> d[i] == if at <= i < at + |text| then Some(text[i - at]) else c[i]
  {
    seq(|c|, i requires 0 <= i < |c| => if at <= i < at + |text| then Some(text[i - at]) else c[i])
  }

  /** Step `n` of the program; `ok` says whether an allocation was granted.  Steps that name no block the
      program holds, or store outside it, are left out by the program. */
  function After(w: Memory, n: nat, op: Op, ok: bool): Memory
  {
    match op
    case Get(size) => if ok then w[n := Unknown(size)] else w
    case Drop(b) => w - {b}
    case Change(b, size) =>
      if b !in w then w
      else if size == 0 then w - {b}
      else if ok then w[b := Kept(w[b], size)] else w
    case Put(b, at, text) =>
      if b in w && at + |text| <= |w[b]| then w[b := Written(w[b], at, text)] else w
  }

  function Expected(script: seq<Op>, ok: seq<bool>): Memory
    requires |ok| == |script|
  {
    if script == [] then map[]
    else
      var n := |script| - 1;
      After(Expected(script[..n], ok[..n]), n, script[n], ok[n])
  }

  // ----- the arena agrees with what is expected

  predicate Matches(s: seq<u8>, a: int, c: seq<Option<u8>>)
  {
    0 <= a && a + |c| <= |s| && forall i :: 0 <= i < |c| && c[i].Some? ==> s[a + i] == c[i].value
  }

  /** The live block with its header at `d` has these contents. */
  ghost predicate Holding(s: seq<u8>, bs: seq<Block>, d: int, c: seq<Option<u8>>)
  {
    LiveHolding(bs, d, |c|) && Matches(s, d + HEADER, c)
  }

  ghost predicate Agrees(s: seq<u8>, bs: seq<Block>, base: nat, ptr: map<nat, nat>, w: Memory)
  {
    && ptr.Keys == w.Keys && (forall b :: b in w ==> Holding(s, bs, HeaderOffset(base, ptr[b]), w[b]))
    && forall b, c :: b in ptr && c in ptr && b != c ==> ptr[b] != ptr[c]
  }

  lemma {:induction false} LiveBytes(bs: seq<Block>, d: int, m: nat, x: int)
    requires LiveAt(bs, d, m) && d + HEADER <= x < d + HEADER + m
    ensures Live(bs, x)
  {
    var i := IndexLive(bs, d, m);
    assert Payload(bs, i, x);
  }

  /** A block that is live at `d` in `bs` is live there in `cs`. */
  ghost predicate Stays(bs: seq<Block>, cs: seq<Block>, d: int) { forall m: nat :: LiveAt(bs, d, m) ==> LiveAt(cs, d, m) }

  /** A block that stays live keeps its contents when the live bytes of `os` are kept. */
  lemma {:induction false} StillHolding(s: seq<u8>, t: seq<u8>, bs: seq<Block>, os: seq<Block>, cs: seq<Block>, d: int,
                                        c: seq<Option<u8>>)
    requires Holding(s, bs, d, c) && KeepsLive(s, t, os) && Stays(bs, os, d) && Stays(bs, cs, d)
    ensures Holding(t, cs, d, c)
  {
    var m: nat :| LiveAt(bs, d, m) && m >= |c|;
    forall i | 0 <= i < |c| && c[i].Some? ensures t[d + HEADER + i] == c[i].value { LiveBytes(os, d, m, d + HEADER + i); }
  }

  // ----- the steps

  /** Nothing live stands where a free block is. */
  lemma {:induction false} FreeNotLive(bs: seq<Block>, k: nat, m: nat)
    requires k < |bs| && bs[k].free
    ensures !LiveAt(bs, Addr(bs, k), m)
  {
    if LiveAt(bs, Addr(bs, k), m) {
      var i := IndexLive(bs, Addr(bs, k), m);
      Differ(bs, i, k);
    }
  }

  lemma {:induction false} AllocAgrees(s: seq<u8>, t: seq<u8>, bs: seq<Block>, base: nat, ptr: map<nat, nat>, w: Memory,
                                       n: nat, size: nat, p: nat)
    requires Agrees(s, bs, base, ptr, w) && KeepsLive(s, t, bs) && |t| == ARENA == Total(Malloc(bs, size))
    requires Granted(bs, Malloc(bs, size), size, p - base)
    ensures Agrees(t, Malloc(bs, size), base, ptr[n := p], w[n := Unknown(size)])
  {
    var cs, k := Malloc(bs, size), FirstFit(bs, Rounded(size), 0);
    LiveIndex(cs, k);
    AddrBound(cs, k);
    assert Holding(t, cs, HeaderOffset(base, p), Unknown(size));
    forall b | b in w
      ensures Holding(t, cs, HeaderOffset(base, ptr[b]), w[b]) && ptr[b] != p
    {
      var d := HeaderOffset(base, ptr[b]);
      forall m: nat | LiveAt(bs, d, m) ensures LiveAt(cs, d, m) { MallocLive(bs, size, d, m); }
      StillHolding(s, t, bs, bs, cs, d, w[b]);
      var m: nat :| LiveAt(bs, d, m) && m >= |w[b]|;
      FreeNotLive(bs, k, m);
    }
  }

  lemma {:induction false} FailedAgrees(s: seq<u8>, t: seq<u8>, bs: seq<Block>, base: nat, ptr: map<nat, nat>, w: Memory)
    requires Agrees(s, bs, base, ptr, w) && KeepsLive(s, t, bs)
    ensures Agrees(t, bs, base, ptr, w)
  {
    forall b | b in w ensures Holding(t, bs, HeaderOffset(base, ptr[b]), w[b]) {
      StillHolding(s, t, bs, bs, bs, HeaderOffset(base, ptr[b]), w[b]);
    }
  }

  /** Blocks other than the one at `k` stay where they are when it is released. */
  lemma {:induction false} OthersStay(bs: seq<Block>, k: nat, d: int)
    requires k < |bs| && d != Addr(bs, k)
    ensures Stays(bs, Others(bs, k), d) && Stays(bs, Release(bs, k), d)
  {
    forall m: nat | LiveAt(bs, d, m) ensures LiveAt(Others(bs, k), d, m) && LiveAt(Release(bs, k), d, m) {
      FreedLive(bs, k, d, m);
      ReleaseLive(bs, k, d, m);
    }
  }

  lemma {:induction false} ReleaseAgrees(s: seq<u8>, t: seq<u8>, bs: seq<Block>, base: nat, ptr: map<nat, nat>, w: Memory,
                                         b: nat, k: nat)
    requires Agrees(s, bs, base, ptr, w) && b in w && k < |bs| && HeaderOffset(base, ptr[b]) == Addr(bs, k)
    requires KeepsLive(s, t, Others(bs, k))
    ensures Agrees(t, Release(bs, k), base, ptr - {b}, w - {b})
  {
    forall c | c in w && c != b ensures Holding(t, Release(bs, k), HeaderOffset(base, ptr[c]), w[c]) {
      var d := HeaderOffset(base, ptr[c]);
      OthersStay(bs, k, d);
      StillHolding(s, t, bs, Others(bs, k), Release(bs, k), d, w[c]);
    }
  }

  /** The block at a live address has one size. */
  lemma {:induction false} LiveSize(bs: seq<Block>, k: nat, m: nat)
    requires k < |bs| && LiveAt(bs, Addr(bs, k), m)
    ensures m == bs[k].size && !bs[k].free
  {
    var i := IndexLive(bs, Addr(bs, k), m);
    Differ(bs, i, k);
  }

  lemma {:induction false} ResizedOther(s: seq<u8>, t: seq<u8>, bs: seq<Block>, base: nat, q: nat, k: nat, size: nat, p: nat,
                                        r: nat, c: seq<Option<u8>>)
    requires Resized(s, t, bs, base, q, k, size, p) && r != q && Holding(s, bs, HeaderOffset(base, r), c)
    ensures Holding(t, Apply(bs, Realloc(k, size)), HeaderOffset(base, r), c) && r != p
  {
    var d, cs := HeaderOffset(base, r), Apply(bs, Realloc(k, size));
    OthersStay(bs, k, d);
    forall m: nat | LiveAt(bs, d, m) ensures LiveAt(cs, d, m) {
      if bs[k].size < size { GrowLive(bs, k, size, d, m); }
    }
    StillHolding(s, t, bs, Others(bs, k), cs, d, c);
    if p != q {
      var m: nat :| LiveAt(bs, d, m) && m >= |c|;
      FreeNotLive(bs, FirstFit(bs, Rounded(size), 0), m);
    }
  }

  lemma {:induction false} ResizedOwn(s: seq<u8>, t: seq<u8>, bs: seq<Block>, base: nat, q: nat, k: nat, size: nat, p: nat,
                                      c: seq<Option<u8>>)
    requires Resized(s, t, bs, base, q, k, size, p) && Holding(s, bs, HeaderOffset(base, q), c)
    requires |t| == ARENA == Total(Apply(bs, Realloc(k, size)))
    ensures Holding(t, Apply(bs, Realloc(k, size)), HeaderOffset(base, p), Kept(c, size))
  {
    OwnMoved(s, t, bs, Apply(bs, Realloc(k, size)), k, HeaderOffset(base, p), size, c);
  }

  lemma {:induction false} OwnMoved(s: seq<u8>, t: seq<u8>, bs: seq<Block>, cs: seq<Block>, k: nat, d: int, size: nat,
                                    c: seq<Option<u8>>)
    requires k < |bs| && Holding(s, bs, Addr(bs, k), c) && LiveHolding(cs, d, size)
    requires |t| == ARENA == Total(cs) && Moves(s, t, Addr(bs, k) + HEADER, d + HEADER, bs[k].size)
    ensures Holding(t, cs, d, Kept(c, size))
  {
    var m: nat :| LiveAt(bs, Addr(bs, k), m) && m >= |c|;
    LiveSize(bs, k, m);
    LiveEnd(cs, d, size);
    MovedMatches(s, t, Addr(bs, k) + HEADER, d + HEADER, bs[k].size, c, size);
  }

  lemma {:induction false} LiveEnd(bs: seq<Block>, d: int, size: nat)
    requires LiveHolding(bs, d, size) && Total(bs) == ARENA
    ensures 0 <= d && d + HEADER + size <= ARENA
  {
    var l: nat :| LiveAt(bs, d, l) && l >= size;
    var i := IndexLive(bs, d, l);
    AddrBound(bs, i);
  }

  lemma {:induction false} MovedMatches(s: seq<u8>, t: seq<u8>, from: int, to: int, n: nat, c: seq<Option<u8>>, size: nat)
    requires Moves(s, t, from, to, n) && Matches(s, from, c) && |c| <= n && 0 <= to && to + size <= |t|
    ensures Matches(t, to, Kept(c, size))
  {
    forall j | 0 <= j < size && Kept(c, size)[j].Some? ensures t[to + j] == Kept(c, size)[j].value {
      assert t[to..to + n][j] == s[from..from + n][j];
      assert s[from + j] == c[j].value;
    }
  }

  lemma {:induction false} ChangeAgrees(s: seq<u8>, t: seq<u8>, bs: seq<Block>, base: nat, ptr: map<nat, nat>, w: Memory,
                                        b: nat, k: nat, size: nat, p: nat)
    requires Agrees(s, bs, base, ptr, w) && b in w && Resized(s, t, bs, base, ptr[b], k, size, p)
    requires |t| == ARENA == Total(Apply(bs, Realloc(k, size)))
    ensures Agrees(t, Apply(bs, Realloc(k, size)), base, ptr[b := p], w[b := Kept(w[b], size)])
  {
    ResizedOwn(s, t, bs, base, ptr[b], k, size, p, w[b]);
    forall c | c in w && c != b
      ensures Holding(t, Apply(bs, Realloc(k, size)), HeaderOffset(base, ptr[c]), w[c]) && ptr[c] != p
    {
      ResizedOther(s, t, bs, base, ptr[b], k, size, p, ptr[c], w[c]);
    }
  }

  /** A store into block `k` leaves every other block's bytes alone. */
  lemma {:induction false} PutOther(s: seq<u8>, t: seq<u8>, bs: seq<Block>, k: nat, at: nat, n: nat, d: int, c: seq<Option<u8>>)
    requires k < |bs| && at + n <= bs[k].size && SameBut(s, t, Addr(bs, k) + HEADER + at, n)
    requires d != Addr(bs, k) && Holding(s, bs, d, c)
    ensures Holding(t, bs, d, c)
  {
    var m: nat :| LiveAt(bs, d, m) && m >= |c|;
    var i := IndexLive(bs, d, m);
    var a := Addr(bs, k) + HEADER + at;
    forall j | 0 <= j < |c| && c[j].Some? ensures t[d + HEADER + j] == c[j].value {
      var x := d + HEADER + j;
      if a <= x < a + n { PayloadsApart(bs, i, k, x); }
    }
  }

  lemma {:induction false} PutOwn(s: seq<u8>, t: seq<u8>, bs: seq<Block>, d: int, at: nat, text: seq<u8>, c: seq<Option<u8>>)
    requires Holding(s, bs, d, c) && at + |text| <= |c| && SameBut(s, t, d + HEADER + at, |text|)
    requires t[d + HEADER + at..d + HEADER + at + |text|] == text
    ensures Holding(t, bs, d, Written(c, at, text))
  {
    var a := d + HEADER;
    forall j | 0 <= j < |c| && Written(c, at, text)[j].Some? ensures t[a + j] == Written(c, at, text)[j].value {
      if at <= j < at + |text| { assert t[a + at..a + at + |text|][j - at] == text[j - at]; }
    }
  }

  lemma {:induction false} PutAgrees(s: seq<u8>, t: seq<u8>, bs: seq<Block>, base: nat, ptr: map<nat, nat>, w: Memory,
                                     b: nat, k: nat, at: nat, text: seq<u8>)
    requires Agrees(s, bs, base, ptr, w) && b in w && k < |bs| && HeaderOffset(base, ptr[b]) == Addr(bs, k)
    requires at + |text| <= |w[b]| && at + |text| <= bs[k].size
    requires SameBut(s, t, Addr(bs, k) + HEADER + at, |text|) && Addr(bs, k) + HEADER + at + |text| <= |t|
    requires t[Addr(bs, k) + HEADER + at..Addr(bs, k) + HEADER + at + |text|] == text
    ensures Agrees(t, bs, base, ptr, w[b := Written(w[b], at, text)])
  {
    PutOwn(s, t, bs, Addr(bs, k), at, text, w[b]);
    forall c | c in w && c != b ensures Holding(t, bs, HeaderOffset(base, ptr[c]), w[c]) {
      PutOther(s, t, bs, k, at, |text|, HeaderOffset(base, ptr[c]), w[c]);
    }
  }

  // ----- running a program

  /** Block `k` behind a pointer the program holds. */
  lemma {:induction false} BlockBehind(s: seq<u8>, bs: seq<Block>, base: nat, ptr: map<nat, nat>, w: Memory, b: nat)
    returns (k: nat)
    requires Agrees(s, bs, base, ptr, w) && b in w
    ensures k < |bs| && !bs[k].free && HeaderOffset(base, ptr[b]) == Addr(bs, k) && bs[k].size >= |w[b]|
  {
    var d := HeaderOffset(base, ptr[b]);
    assert LiveHolding(bs, d, |w[b]|);
    var m: nat :| LiveAt(bs, d, m) && m >= |w[b]|;
    k := IndexLive(bs, d, m);
  }

  ghost predicate Running(heap: Allocator, ptr: map<nat, nat>, w: Memory)
    reads heap, heap.arena
  {
    heap.Valid() && Agrees(heap.arena[..], heap.blocks, heap.base, ptr, w)
  }

  method DoGet(heap: Allocator, ptr: map<nat, nat>, ghost w: Memory, n: nat, size: u64) returns (next: map<nat, nat>, ok: bool)
    requires Running(heap, ptr, w)
    modifies heap, heap.arena
    ensures Running(heap, next, After(w, n, Get(size), ok))
    ensures ok <==> !NoneFits(old(heap.blocks), Rounded(size))
  {
    ghost var s, bs := heap.arena[..], heap.blocks;
    var p := heap.Malloc(size);
    ok := p != 0;
    if ok {
      next := ptr[n := p];
      AllocAgrees(s, heap.arena[..], bs, heap.base, ptr, w, n, size, p);
    } else {
      next := ptr;
      MallocWf(bs, size);
      FailedAgrees(s, heap.arena[..], bs, heap.base, ptr, w);
    }
  }

  method DoDrop(heap: Allocator, ptr: map<nat, nat>, ghost w: Memory, n: nat, b: nat) returns (next: map<nat, nat>)
    requires Running(heap, ptr, w)
    modifies heap, heap.arena
    ensures Running(heap, next, After(w, n, Drop(b), true))
  {
    if b !in ptr {
      assert w - {b} == w;
      return ptr;
    }
    ghost var s, bs := heap.arena[..], heap.blocks;
    ghost var k := BlockBehind(s, bs, heap.base, ptr, w, b);
    InUse(heap, k);
    heap.Free(ptr[b], k);
    ReleaseAgrees(s, heap.arena[..], bs, heap.base, ptr, w, b, k);
    next := ptr - {b};
  }

  /** A heap with a live block has been written. */
  lemma {:induction false} InUse(heap: Allocator, k: nat)
    requires heap.Valid() && k < |heap.blocks| && !heap.blocks[k].free
    ensures heap.first != 0
  {
  }

  method DoChange(heap: Allocator, ptr: map<nat, nat>, ghost w: Memory, n: nat, b: nat, size: u64)
    returns (next: map<nat, nat>, ok: bool)
    requires Running(heap, ptr, w)
    modifies heap, heap.arena
    ensures Running(heap, next, After(w, n, Change(b, size), ok))
  {
    next, ok := ptr, false;
    if b !in ptr { return; }
    ghost var s, bs := heap.arena[..], heap.blocks;
    ghost var k := BlockBehind(s, bs, heap.base, ptr, w, b);
    var p := CallRealloc(heap, ptr[b], size, k);
    ok := p != 0;
    next := Moved(ptr, b, size, p);
    ChangeStep(s, heap.arena[..], bs, heap.base, ptr, w, n, b, k, size, p);
  }

  /** `realloc`, with what its contract means for the program. */
  method CallRealloc(heap: Allocator, q: nat, size: u64, ghost k: nat) returns (p: nat)
    requires heap.Valid() && q != 0 && k < |heap.blocks| && !heap.blocks[k].free
    requires HeaderOffset(heap.base, q) == Addr(heap.blocks, k)
    modifies heap, heap.arena
    ensures heap.Valid() && heap.blocks == Apply(old(heap.blocks), Realloc(k, size))
    ensures size == 0 ==> KeepsLive(old(heap.arena[..]), heap.arena[..], Others(old(heap.blocks), k))
    ensures size != 0 && p != 0 ==> Resized(old(heap.arena[..]), heap.arena[..], old(heap.blocks), heap.base, q, k, size, p)
    ensures size != 0 && p == 0 ==> KeepsLive(old(heap.arena[..]), heap.arena[..], old(heap.blocks))
    ensures size != 0 && p == 0 ==> heap.blocks == old(heap.blocks)
  {
    InUse(heap, k);
    ghost var bs := heap.blocks;
    p := heap.Realloc(q, size, k);
    if size != 0 && p == 0 { GrowFails(bs, k, size); }
  }

  /** The program's pointers after a `realloc` that answered `p`. */
  function Moved(ptr: map<nat, nat>, b: nat, size: nat, p: nat): map<nat, nat>
  {
    if size == 0 then ptr - {b} else if p != 0 then ptr[b := p] else ptr
  }

  lemma {:induction false} ChangeStep(s: seq<u8>, t: seq<u8>, bs: seq<Block>, base: nat, ptr: map<nat, nat>, w: Memory,
                                      n: nat, b: nat, k: nat, size: u64, p: nat)
    requires Agrees(s, bs, base, ptr, w) && b in w && k < |bs| && HeaderOffset(base, ptr[b]) == Addr(bs, k)
    requires |t| == ARENA == Total(Apply(bs, Realloc(k, size)))
    requires size == 0 ==> KeepsLive(s, t, Others(bs, k))
    requires size != 0 && p != 0 ==> Resized(s, t, bs, base, ptr[b], k, size, p)
    requires size != 0 && p == 0 ==> KeepsLive(s, t, bs) && Apply(bs, Realloc(k, size)) == bs
    ensures Agrees(t, Apply(bs, Realloc(k, size)), base, Moved(ptr, b, size, p), After(w, n, Change(b, size), p != 0))
  {
    if size == 0 {
      ReleaseAgrees(s, t, bs, base, ptr, w, b, k);
    } else if p != 0 {
      ChangeAgrees(s, t, bs, base, ptr, w, b, k, size, p);
    } else {
      FailedAgrees(s, t, bs, base, ptr, w);
    }
  }

  method DoPut(heap: Allocator, ptr: map<nat, nat>, ghost w: Memory, size: map<nat, nat>, ghost n: nat,
               b: nat, at: nat, text: seq<u8>)
    requires Running(heap, ptr, w) && Sizes(size, w)
    modifies heap.arena
    ensures Running(heap, ptr, After(w, n, Put(b, at, text), true))
  {
    if b !in ptr || at + |text| > size[b] { return; }
    ghost var s, bs := heap.arena[..], heap.blocks;
    ghost var k := BlockBehind(s, bs, heap.base, ptr, w, b);
    InUse(heap, k);
    heap.Store(ptr[b], at, text, k);
    PutAgrees(s, heap.arena[..], bs, heap.base, ptr, w, b, k, at, text);
  }

  /** What the program remembers of its blocks' sizes. */
  ghost predicate Sizes(size: map<nat, nat>, w: Memory) { size.Keys == w.Keys && forall b :: b in w ==> size[b] == |w[b]| }

  /** The sizes after step `n`. */
  function SizesAfter(size: map<nat, nat>, n: nat, op: Op, ok: bool): map<nat, nat>
  {
    match op
    case Get(z) => if ok then size[n := z] else size
    case Drop(b) => size - {b}
    case Change(b, z) => if b !in size then size else if z == 0 then size - {b} else if ok then size[b := z] else size
    case Put(_, _, _) => size
  }

  lemma {:induction false} SizesKept(size: map<nat, nat>, w: Memory, n: nat, op: Op, ok: bool)
    requires Sizes(size, w)
    ensures Sizes(SizesAfter(size, n, op, ok), After(w, n, op, ok))
  {
  }

  method Perform(heap: Allocator, ptr: map<nat, nat>, size: map<nat, nat>, ghost w: Memory, n: nat, op: Op)
    returns (next: map<nat, nat>, ok: bool)
    requires Running(heap, ptr, w) && Sizes(size, w)
    modifies heap, heap.arena
    ensures Running(heap, next, After(w, n, op, ok))
  {
    match op
    case Get(z) => next, ok := DoGet(heap, ptr, w, n, z);
    case Drop(b) => ok := true; next := DoDrop(heap, ptr, w, n, b);
    case Change(b, z) => next, ok := DoChange(heap, ptr, w, n, b, z);
    case Put(b, at, text) => next, ok := ptr, true; DoPut(heap, ptr, w, size, n, b, at, text);
  }

  /** Any program on a new heap: at its end every block it holds is live, apart from the others, and
      contains the bytes last stored there, through every allocation, release and move in between. */
  method Drive(base: nat, script: seq<Op>) returns (heap: Allocator, ptr: map<nat, nat>, ok: seq<bool>)
    requires 0 < base && base % 16 == 0 && base + ARENA < 0x1_0000_0000_0000_0000
    ensures fresh(heap) && |ok| == |script| && Running(heap, ptr, Expected(script, ok))
  {
    heap := new Allocator(base);
    var size: map<nat, nat> := map[];
    ptr, ok := map[], [];
    for n := 0 to |script|
      invariant fresh(heap) && fresh(heap.arena) && |ok| == n
      invariant Running(heap, ptr, Expected(script[..n], ok)) && Sizes(size, Expected(script[..n], ok))
    {
      ghost var w := Expected(script[..n], ok);
      var granted: bool;
      ptr, granted := Perform(heap, ptr, size, w, n, script[n]);
      SizesKept(size, w, n, script[n], granted);
      size := SizesAfter(size, n, script[n], granted);
      ExpectedNext(script, n, ok, granted);
      ok := ok + [granted];
    }
    assert script[..|script|] == script;
  }

  lemma {:induction false} ExpectedNext(script: seq<Op>, n: nat, ok: seq<bool>, granted: bool)
    requires n < |script| && |ok| == n
    ensures Expected(script[..n + 1], ok + [granted]) == After(Expected(script[..n], ok), n, script[n], granted)
  {
    assert script[..n + 1][..n] == script[..n] && (ok + [granted])[..n] == ok;
  }
}
