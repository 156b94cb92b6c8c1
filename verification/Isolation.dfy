/** Building a process's page tables in place and checking user pointers against them
    (jordyOS/isolation.c). */
module Isolation {
  import opened Words
  import opened Bits
  import opened UserImage
  import opened PageTables

  // ----- the upper levels

  const PDPT := PAGE
  const PD := 2 * PAGE
  const PT := 3 * PAGE

  /** A pointer to a lower table, open to the user. */
  function Link(address: nat): nat { address + P + W + U }

  /** The kernel's own directory, closed to the user. */
  const KERNEL_LINK := 0x8_2000 + P + W

  ghost predicate Linked(process: nat, pml4: seq<u64>, pdpt: seq<u64>, pd: seq<u64>)
  {
    && |pml4| == |pdpt| == |pd| == 512
    && (forall i :: 0 <= i < 512 ==> pml4[i] == if i == 0 then Link(process + PDPT) else 0)
    && (forall i :: 0 <= i < 512 ==>
          pdpt[i] == if i == 0 then KERNEL_LINK else if i == 1 then Link(process + PD) else 0)
    && (forall i :: 0 <= i < 512 ==> pd[i] == if i < 5 then Link(process + PT + i * PAGE) else 0)
  }

  /** Where the processor's walk leads a user access before the last level. */
  datatype Route = Denied | Foreign | Leaf(page: nat)

  function Walk(process: nat, pml4: seq<u64>, pdpt: seq<u64>, pd: seq<u64>, a: nat): Route
    requires |pml4| == |pdpt| == |pd| == 512
  {
    var e4, e3, e2 := pml4[a / 0x80_0000_0000 % 512], pdpt[a / 0x4000_0000 % 512], pd[a / 0x20_0000 % 512];
    if !UserEntry(e4) || !WriteEntry(e4) then Denied
    else if Target(e4) != process + PDPT then Foreign
    else if !UserEntry(e3) || !WriteEntry(e3) then Denied
    else if Target(e3) != process + PD then Foreign
    else if !UserEntry(e2) || !WriteEntry(e2) then Denied
    else
      var at := Target(e2) - (process + PT);
      if 0 <= at < 5 * PAGE then Leaf(at / PAGE * 512 + a / PAGE % 512) else Foreign
  }

  lemma {:induction false} LinkDecodes(address: nat)
    requires address % PAGE == 0 && address < NX
    ensures UserEntry(Link(address)) && WriteEntry(Link(address)) && Target(Link(address)) == address
    ensures !UserEntry(0) && !UserEntry(KERNEL_LINK)
  {
    LowFlags(Link(address));
    LowFlags(0);
    LowFlags(KERNEL_LINK);
  }

  /** A user access reaches the last level exactly in the user window, and always the process's own
      tables. */
  lemma {:induction false} WalkWindow(process: nat, pml4: seq<u64>, pdpt: seq<u64>, pd: seq<u64>, a: nat)
    requires process % PAGE == 0 && process + PROCESS_SIZE <= NX && Linked(process, pml4, pdpt, pd)
    requires a < 0x1_0000_0000_0000
    ensures Walk(process, pml4, pdpt, pd, a) ==
      if BASE <= a < BASE + TABLE_PAGES * PAGE then Leaf((a - BASE) / PAGE) else Denied
  {
    var i4, i3, i2 := a / 0x80_0000_0000 % 512, a / 0x4000_0000 % 512, a / 0x20_0000 % 512;
    LinkDecodes(process + PDPT);
    LinkDecodes(process + PD);
    if i4 == 0 && i3 == 1 && i2 < 5 {
      LinkDecodes(process + PT + i2 * PAGE);
      WindowIndex(a);
    }
    Window(a);
  }

  lemma {:induction false} Window(a: nat)
    requires a < 0x1_0000_0000_0000
    ensures (a / 0x80_0000_0000 % 512 == 0 && a / 0x4000_0000 % 512 == 1 && a / 0x20_0000 % 512 < 5)
      <==> BASE <= a < BASE + TABLE_PAGES * PAGE
  {
  }

  lemma {:induction false} WindowIndex(a: nat)
    requires BASE <= a < BASE + TABLE_PAGES * PAGE
    ensures a / 0x20_0000 % 512 * 512 + a / PAGE % 512 == (a - BASE) / PAGE
  {
  }

  // ----- the last level

  function EntryAt(maps: seq<Mapping>, n: nat): nat
  {
    if maps == [] then 0
    else if maps[|maps| - 1].page == n then Encode(maps[|maps| - 1])
    else EntryAt(maps[..|maps| - 1], n)
  }

  /** The tables show the given mappings, the latest of a page. */
  ghost predicate Shows(pt: array2<u64>, maps: seq<Mapping>)
    reads pt
  {
    && pt.Length0 == 5 && pt.Length1 == 512
    && forall i, j :: 0 <= i < 5 && 0 <= j < 512 ==> pt[i, j] == EntryAt(maps, i * 512 + j)
  }

  lemma {:induction false} EntryPush(maps: seq<Mapping>, x: Mapping, n: nat)
    ensures EntryAt(maps + [x], n) == if x.page == n then Encode(x) else EntryAt(maps, n)
  {
    assert (maps + [x])[..|maps|] == maps;
  }

  method EntryValue(physical: nat, flags: nat, ghost x: Mapping) returns (entry: u64)
    requires physical % PAGE == 0 && physical < NX && flags == Flags(x.writable, x.noExecute) && x.physical == physical
    ensures entry == Encode(x)
  {
    EncodeBits(x);
    entry := Or(Or(Or(physical, P), U), flags);
  }

  /** `map_page`. */
  method MapPage(pt: array2<u64>, ghost maps: seq<Mapping>, address: nat, physical: nat, flags: nat,
                 ghost writable: bool, ghost noExecute: bool)
    requires Shows(pt, maps) && BASE <= address < BASE + TABLE_PAGES * PAGE
    requires physical % PAGE == 0 && physical < NX && flags == Flags(writable, noExecute)
    modifies pt
    ensures Shows(pt, maps + [Mapping((address - BASE) / PAGE, physical, writable, noExecute)])
  {
    var offset := address - BASE;
    ghost var x := Mapping(offset / PAGE, physical, writable, noExecute);
    var entry := EntryValue(physical, flags, x);
    pt[offset / 0x20_0000, offset / PAGE % 512] := entry;
    forall i, j | 0 <= i < 5 && 0 <= j < 512 ensures pt[i, j] == EntryAt(maps + [x], i * 512 + j) {
      EntryPush(maps, x, i * 512 + j);
    }
  }

  predicate ProcessPlaced(process: nat) { process % PAGE == 0 && process + PROCESS_SIZE <= NX }

  lemma {:induction false} Append(a: seq<Mapping>, b: seq<Mapping>, x: Mapping)
    ensures a + b + [x] == a + (b + [x])
  {
  }

  /** The page loop of one segment. */
  method MapSegment(pt: array2<u64>, ghost maps: seq<Mapping>, process: nat, s: Segment)
    requires Shows(pt, maps) && ProcessPlaced(process) && RangeOk(s)
    modifies pt
    ensures Shows(pt, maps + SegmentMaps(process, s, PagesOf(s)))
  {
    var flags := (if s.flags / 2 % 2 == 1 then W else 0) + (if s.flags % 2 == 1 then 0 else NX);
    var offset := 0;
    ghost var k: nat := 0;
    assert maps + [] == maps;
    while offset < s.memorySize
      invariant offset == k * PAGE && k <= PagesOf(s)
      invariant Shows(pt, maps + SegmentMaps(process, s, k))
    {
      ghost var done := SegmentMaps(process, s, k);
      PageIndex(s, k);
      MapPage(pt, maps + done, BASE + s.offset + offset, Memory(process) + s.offset + offset, flags,
              s.flags / 2 % 2 == 1, s.flags % 2 == 0);
      Append(maps, done, Mapping(s.offset / PAGE + k, Memory(process) + s.offset + k * PAGE,
                                 s.flags / 2 % 2 == 1, s.flags % 2 == 0));
      offset := offset + PAGE;
      k := k + 1;
    }
  }

  /** The stack loop. */
  method MapStack(pt: array2<u64>, ghost maps: seq<Mapping>, process: nat)
    requires Shows(pt, maps) && ProcessPlaced(process)
    modifies pt
    ensures Shows(pt, maps + StackMaps(process, STACK_PAGES))
  {
    var offset := 0;
    ghost var k: nat := 0;
    assert maps + [] == maps;
    while offset < STACK_SIZE
      invariant offset == k * PAGE && k <= STACK_PAGES
      invariant Shows(pt, maps + StackMaps(process, k))
    {
      ghost var done := StackMaps(process, k);
      MapPage(pt, maps + done, STACK_BOTTOM + offset, Stack(process) + offset, W + NX, true, true);
      Append(maps, done, Mapping(FIRST_STACK_PAGE + k, Stack(process) + k * PAGE, true, true));
      offset := offset + PAGE;
      k := k + 1;
    }
  }

  lemma {:induction false} ImagePush(process: nat, segments: seq<Segment>, n: nat)
    requires InRange(segments) && n < |segments|
    ensures ImageMaps(process, segments[..n + 1])
         == ImageMaps(process, segments[..n]) + SegmentMaps(process, segments[n], PagesOf(segments[n]))
  {
    assert segments[..n + 1][..n] == segments[..n];
  }

  /** The segment loop. */
  method MapImage(pt: array2<u64>, process: nat, segments: seq<Segment>)
    requires Shows(pt, []) && ProcessPlaced(process) && InRange(segments)
    modifies pt
    ensures Shows(pt, ImageMaps(process, segments))
  {
    for n := 0 to |segments|
      invariant Shows(pt, ImageMaps(process, segments[..n]))
    {
      ImagePush(process, segments, n);
      MapSegment(pt, ImageMaps(process, segments[..n]), process, segments[n]);
    }
    assert segments[..|segments|] == segments;
  }

  /** The last level of `prepare`. */
  method MapAll(pt: array2<u64>, process: nat, segments: seq<Segment>)
    requires pt.Length0 == 5 && pt.Length1 == 512 && ProcessPlaced(process) && InRange(segments)
    modifies pt
    ensures Shows(pt, AllMaps(process, segments))
  {
    forall i, j | 0 <= i < 5 && 0 <= j < 512 { pt[i, j] := 0; }
    MapImage(pt, process, segments);
    ghost var image := ImageMaps(process, segments);
    ghost var fixed := FixedMaps(process);
    MapPage(pt, image, MARKER, Memory(process) + IMAGE_LIMIT - PAGE, W + NX, true, true);
    MapPage(pt, image + [fixed[0]], STARTUP, StartupPage(process), NX, false, true);
    Append(image, [fixed[0]], fixed[1]);
    assert [fixed[0]] + [fixed[1]] == fixed;
    MapStack(pt, image + fixed, process);
  }

  /** The upper levels of `prepare`. */
  method LinkTables(process: nat, pml4: array<u64>, pdpt: array<u64>, pd: array<u64>)
    requires ProcessPlaced(process) && pml4.Length == pdpt.Length == pd.Length == 512
    requires pml4 != pdpt && pdpt != pd && pd != pml4
    modifies pml4, pdpt, pd
    ensures Linked(process, pml4[..], pdpt[..], pd[..])
  {
    forall i | 0 <= i < 512 { pml4[i] := 0; }
    forall i | 0 <= i < 512 { pdpt[i] := 0; }
    forall i | 0 <= i < 512 { pd[i] := 0; }
    pml4[0] := Link(process + PDPT);
    pdpt[0] := KERNEL_LINK;
    pdpt[1] := Link(process + PD);
    for i := 0 to 5
      invariant forall k :: 0 <= k < 512 ==> pd[k] == if k < i then Link(process + PT + k * PAGE) else 0
      modifies pd
    {
      pd[i] := Link(process + PT + i * PAGE);
    }
  }

  // ----- what a user access may touch

  lemma {:induction false} EntryOfPage(process: nat, segments: seq<Segment>, maps: seq<Mapping>, n: nat)
    requires AllProper(process, segments, maps) && ProcessPlaced(process)
    ensures UserEntry(EntryAt(maps, n)) ==> n < WINDOW_PAGES && n != GUARD_PAGE
    decreases |maps|
  {
    EncodeDecodes(Mapping(0, 0, false, false));
    if maps != [] {
      EntryOfPage(process, segments, maps[..|maps| - 1], n);
      assert Proper(process, segments, maps[|maps| - 1]);
    }
  }

  /** A process slot with its tables. */
  class Process {
    const base: nat
    const pml4: array<u64>
    const pdpt: array<u64>
    const pd: array<u64>
    const pt: array2<u64>

    predicate Valid()
    {
      && ProcessPlaced(base) && pml4.Length == pdpt.Length == pd.Length == 512
      && pml4 != pdpt && pdpt != pd && pd != pml4 && pt.Length0 == 5 && pt.Length1 == 512
    }

    /** The tables are as `prepare` leaves them for some image in range. */
    ghost predicate Prepared(segments: seq<Segment>)
      reads pml4, pdpt, pd, pt
    {
      Valid() && InRange(segments) && Linked(base, pml4[..], pdpt[..], pd[..]) && Shows(pt, AllMaps(base, segments))
    }

    /** The mapping part of `prepare`. */
    method Prepare(segments: seq<Segment>)
      requires Valid() && InRange(segments)
      modifies pml4, pdpt, pd, pt
      ensures Prepared(segments)
    {
      LinkTables(base, pml4, pdpt, pd);
      MapAll(pt, base, segments);
    }

    function LeafEntry(n: nat): nat
      requires Valid() && n < TABLE_PAGES
      reads pt
    {
      pt[n / 512, n % 512]
    }

    /** Page `n` may be read, or written, from user mode. */
    predicate PageOk(n: nat, write: bool)
      requires Valid() && n < TABLE_PAGES
      reads pt
    {
      UserEntry(LeafEntry(n)) && (write ==> WriteEntry(LeafEntry(n)))
    }

    /** The processor's verdict on a user access to one byte: all four levels. */
    predicate UserByte(a: nat, write: bool)
      requires Valid()
      reads pml4, pdpt, pd, pt
    {
      a < 0x1_0000_0000_0000 &&
      match Walk(base, pml4[..], pdpt[..], pd[..], a)
      case Leaf(n) => n < TABLE_PAGES && PageOk(n, write)
      case _ => false
    }

    /** On prepared tables: the user window's mapped pages, and nothing else. */
    lemma {:induction false} UserByteIs(segments: seq<Segment>, a: nat, write: bool)
      requires Prepared(segments)
      ensures UserByte(a, write) <==> BASE <= a < STACK_TOP && PageOk((a - BASE) / PAGE, write)
    {
      if a < 0x1_0000_0000_0000 {
        WalkWindow(base, pml4[..], pdpt[..], pd[..], a);
        if BASE <= a < BASE + TABLE_PAGES * PAGE {
          var n := (a - BASE) / PAGE;
          LeafIs(segments, n);
          EveryMapProper(base, segments);
          EntryOfPage(base, segments, AllMaps(base, segments), n);
        }
      }
    }

    lemma {:induction false} LeafIs(segments: seq<Segment>, n: nat)
      requires Prepared(segments) && n < TABLE_PAGES
      ensures LeafEntry(n) == EntryAt(AllMaps(base, segments), n)
    {
      assert n / 512 * 512 + n % 512 == n;
    }

    /** Physical address behind a user address. */
    function Physical(a: nat): nat
      requires Valid() && BASE <= a < STACK_TOP
      reads pt
    {
      Target(LeafEntry((a - BASE) / PAGE)) + a % PAGE
    }

    /** A user access goes through a mapping that `prepare` made for its page. */
    lemma {:induction false} AccessMapped(segments: seq<Segment>, a: nat, write: bool) returns (k: nat)
      requires Prepared(segments) && UserByte(a, write)
      ensures BASE <= a < STACK_TOP && k < |AllMaps(base, segments)|
      ensures LeafEntry((a - BASE) / PAGE) == Encode(AllMaps(base, segments)[k])
      ensures AllMaps(base, segments)[k].page == (a - BASE) / PAGE
      ensures Physical(a) == AllMaps(base, segments)[k].physical + a % PAGE
      ensures Physical(a) == FrameOf(base, (a - BASE) / PAGE) + a % PAGE && (a - BASE) / PAGE != GUARD_PAGE
      ensures write ==> AllMaps(base, segments)[k].writable
    {
      UserByteIs(segments, a, write);
      var n := (a - BASE) / PAGE;
      LeafIs(segments, n);
      EveryMapProper(base, segments);
      k := MappingBehind(base, segments, AllMaps(base, segments), n);
    }
  }

  /** A user entry comes from a mapping of that page, to the page's own frame. */
  lemma {:induction false} MappingBehind(process: nat, segments: seq<Segment>, maps: seq<Mapping>, n: nat) returns (k: nat)
    requires ProcessPlaced(process) && AllProper(process, segments, maps) && UserEntry(EntryAt(maps, n))
    ensures k < |maps| && maps[k].page == n && EntryAt(maps, n) == Encode(maps[k])
    ensures Target(EntryAt(maps, n)) == maps[k].physical == FrameOf(process, n) && n != GUARD_PAGE
    ensures WriteEntry(EntryAt(maps, n)) ==> maps[k].writable
  {
    k := EntrySource(maps, n);
    assert Proper(process, segments, maps[k]);
    EncodeDecodes(maps[k]);
  }

  lemma {:induction false} EntrySource(maps: seq<Mapping>, n: nat) returns (k: nat)
    requires UserEntry(EntryAt(maps, n))
    ensures k < |maps| && maps[k].page == n && EntryAt(maps, n) == Encode(maps[k])
    decreases |maps|
  {
    EncodeDecodes(Mapping(0, 0, false, false));
    k := |maps| - 1;
    if maps[k].page != n { k := EntrySource(maps[..|maps| - 1], n); }
  }

  // ----- whole-system isolation

  /** Whatever two processes in different slots access, they never meet in physical memory; and what
      a process accesses lies in its own slot, outside its page tables. */
  lemma {:induction false} ProcessesIsolated(processes: nat, p: Process, q: Process, s: seq<Segment>, t: seq<Segment>,
                                             a: nat, b: nat)
    requires Placed(processes) && p.base == PageTables.Process(processes, 0) && q.base == PageTables.Process(processes, 1)
    requires Usable(s) && Usable(t) && p.Prepared(s) && q.Prepared(t)
    requires p.UserByte(a, false) && q.UserByte(b, false)
    ensures BASE <= a < STACK_TOP && BASE <= b < STACK_TOP
    ensures p.base + TABLES_SIZE <= p.Physical(a) < p.base + PROCESS_SIZE == q.base
    ensures q.base + TABLES_SIZE <= q.Physical(b) < q.base + PROCESS_SIZE
  {
    var j := p.AccessMapped(s, a, false);
    var k := q.AccessMapped(t, b, false);
    MappingSafe(processes, 0, s, j);
    MappingSafe(processes, 1, t, k);
  }

  lemma {:induction false} FramesInjective(process: nat, a: nat, b: nat)
    requires BASE <= a && BASE <= b && a != b
    requires (a - BASE) / PAGE != GUARD_PAGE && (b - BASE) / PAGE != GUARD_PAGE
    ensures FrameOf(process, (a - BASE) / PAGE) + a % PAGE != FrameOf(process, (b - BASE) / PAGE) + b % PAGE
  {
    var m, n := (a - BASE) / PAGE, (b - BASE) / PAGE;
    assert a == BASE + m * PAGE + a % PAGE && b == BASE + n * PAGE + b % PAGE;
  }

  /** Within a process, distinct user addresses are distinct bytes of memory. */
  lemma {:induction false} NoAlias(p: Process, segments: seq<Segment>, a: nat, b: nat)
    requires Usable(segments) && p.Prepared(segments)
    requires p.UserByte(a, false) && p.UserByte(b, false) && a != b
    ensures BASE <= a < STACK_TOP && BASE <= b < STACK_TOP && p.Physical(a) != p.Physical(b)
  {
    var j := p.AccessMapped(segments, a, false);
    var k := p.AccessMapped(segments, b, false);
    FramesInjective(p.base, a, b);
  }

  /** A page that can be written cannot be executed, and the guard page admits no access. */
  lemma {:induction false} WriteXorExecute(processes: nat, slot: nat, p: Process, segments: seq<Segment>, a: nat)
    requires Placed(processes) && slot < 2 && p.base == PageTables.Process(processes, slot)
    requires Usable(segments) && p.Prepared(segments) && p.UserByte(a, true)
    ensures BASE <= a < STACK_TOP && p.LeafEntry((a - BASE) / PAGE) >= NX
    ensures !(STARTUP <= a < STACK_BOTTOM)
  {
    var k := p.AccessMapped(segments, a, true);
    MappingSafe(processes, slot, segments, k);
    EncodeDecodes(AllMaps(p.base, segments)[k]);
    EveryMapProper(p.base, segments);
    assert Proper(p.base, segments, AllMaps(p.base, segments)[k]);
  }

  lemma {:induction false} GuardUnmapped(p: Process, segments: seq<Segment>, a: nat, write: bool)
    requires Usable(segments) && p.Prepared(segments) && STARTUP + PAGE <= a < STACK_BOTTOM
    ensures !p.UserByte(a, write)
  {
    p.UserByteIs(segments, a, write);
    p.LeafIs(segments, GUARD_PAGE);
    EveryMapProper(p.base, segments);
    EntryOfPage(p.base, segments, AllMaps(p.base, segments), GUARD_PAGE);
  }

  // ----- checking user pointers

  ghost predicate PagesOk(p: Process, first: nat, end: nat, write: bool)
    requires p.Valid() && end <= TABLE_PAGES
    reads p.pt
  {
    forall n :: first <= n < end ==> p.PageOk(n, write)
  }

  ghost predicate BytesOk(p: Process, address: nat, size: nat, write: bool)
    requires p.Valid()
    reads p.pml4, p.pdpt, p.pd, p.pt
  {
    forall a :: address <= a < address + size ==> p.UserByte(a, write)
  }

  /** Every byte of a range is accessible exactly when every page it touches is. */
  lemma {:induction false} BytesArePages(p: Process, segments: seq<Segment>, address: nat, size: nat, write: bool)
    requires p.Prepared(segments) && size > 0 && BASE <= address && address + size <= STACK_TOP
    ensures BytesOk(p, address, size, write)
      <==> PagesOk(p, (address - BASE) / PAGE, (address + size - 1 - BASE) / PAGE + 1, write)
  {
    var first, end := (address - BASE) / PAGE, (address + size - 1 - BASE) / PAGE + 1;
    forall a | address <= a < address + size
      ensures first <= (a - BASE) / PAGE < end
      ensures p.UserByte(a, write) <==> p.PageOk((a - BASE) / PAGE, write)
    {
      p.UserByteIs(segments, a, write);
    }
    if BytesOk(p, address, size, write) {
      forall n | first <= n < end ensures p.PageOk(n, write) {
        var a := Max(address, BASE + n * PAGE);
        assert p.UserByte(a, write) && (a - BASE) / PAGE == n;
      }
    }
  }

  /** Ranges that leave the window fail. */
  lemma {:induction false} OutsideWindow(p: Process, segments: seq<Segment>, address: nat, size: nat, write: bool)
    requires p.Prepared(segments) && size > 0 && (address < BASE || address + size > STACK_TOP)
    ensures !BytesOk(p, address, size, write)
  {
    var a := if address < BASE then address else address + size - 1;
    p.UserByteIs(segments, a, write);
  }

  /** `user_range`: true exactly when the processor would grant the user every byte of the range. */
  method UserRange(active: Process?, ghost segments: seq<Segment>, address: u64, size: u64, write: bool) returns (ok: bool)
    requires active != null ==> active.Prepared(segments)
    ensures ok <==> size == 0 || (active != null && BytesOk(active, address, size, write))
  {
    if size == 0 { return true; }
    if active == null { return false; }
    if address < BASE || address >= STACK_TOP || size > STACK_TOP - address {
      OutsideWindow(active, segments, address, size, write);
      return false;
    }
    BytesArePages(active, segments, address, size, write);
    ok := CheckPages(active, address, address + size - 1, write);
  }

  /** The page loop of `user_range`. */
  method CheckPages(p: Process, address: nat, last: nat, write: bool) returns (ok: bool)
    requires p.Valid() && BASE <= address <= last < STACK_TOP
    ensures ok <==> PagesOk(p, (address - BASE) / PAGE, (last - BASE) / PAGE + 1, write)
  {
    ghost var first, end := (address - BASE) / PAGE, (last - BASE) / PAGE + 1;
    var page := address - address % PAGE;
    ghost var n := first;
    while page <= last
      invariant page == BASE + n * PAGE && first <= n <= end && PagesOk(p, first, n, write)
      decreases end - n
    {
      PageSplit(n);
      var offset := page - BASE;
      var entry := p.pt[offset / 0x20_0000, offset / PAGE % 512];
      assert entry == p.LeafEntry(n);
      if !UserEntry(entry) || (write && !WriteEntry(entry)) {
        assert !p.PageOk(n, write);
        return false;
      }
      page, n := page + PAGE, n + 1;
    }
    ok := true;
  }

  lemma {:induction false} PageSplit(n: nat)
    ensures n * PAGE / 0x20_0000 == n / 512 && n * PAGE / PAGE % 512 == n % 512
  {
  }

  /** A NUL-terminated string at `source` ends at its byte `k` and is readable up to there. */
  ghost predicate StringAt(p: Process, bytes: nat -> u8, source: nat, k: nat)
    requires p.Valid()
    reads p.pml4, p.pdpt, p.pd, p.pt
  {
    && bytes(source + k) == 0 && BytesOk(p, source, k + 1, false)
    && forall i :: source <= i < source + k ==> bytes(i) != 0
  }

  lemma {:induction false} BytesJoin(p: Process, source: nat, i: nat)
    requires p.Valid() && BytesOk(p, source, i, false) && BytesOk(p, source + i, 1, false)
    ensures BytesOk(p, source, i + 1, false)
  {
  }

  /** An unreadable byte before any NUL: no string. */
  lemma {:induction false} Stops(p: Process, bytes: nat -> u8, source: nat, i: nat, capacity: nat)
    requires p.Valid() && !BytesOk(p, source + i, 1, false) && forall a :: source <= a < source + i ==> bytes(a) != 0
    ensures forall k :: 0 <= k < capacity ==> !StringAt(p, bytes, source, k)
  {
    assert !p.UserByte(source + i, false);
    forall k | 0 <= k < capacity ensures !StringAt(p, bytes, source, k) {
      assert k >= i ==> source <= source + i < source + (k + 1);
    }
  }

  /** `user_string`: copies exactly the readable strings that fit; `bytes` is what user memory holds. */
  method UserString(active: Process?, ghost segments: seq<Segment>, bytes: nat -> u8, out: array<u8>, source: u64)
    returns (ok: bool)
    requires active != null ==> active.Prepared(segments)
    modifies out
    ensures active == null ==> !ok
    ensures active != null ==>
      (ok <==> exists k :: 0 <= k < out.Length && StringAt(active, bytes, source, k))
    ensures active != null && ok ==>
      exists k :: 0 <= k < out.Length && StringAt(active, bytes, source, k)
        && forall i :: 0 <= i <= k ==> out[i] == bytes(source + i)
  {
    for i := 0 to out.Length
      invariant active != null ==> BytesOk(active, source, i, false)
      invariant forall j :: 0 <= j < i ==> out[j] == bytes(source + j)
      invariant forall a :: source <= a < source + i ==> bytes(a) != 0
    {
      var readable := false;
      if source + i > 0xffff_ffff_ffff_ffff {
        assert active != null ==> !active.UserByte(source + i, false);
      } else {
        readable := UserRange(active, segments, source + i, 1, false);
      }
      if !readable {
        if active != null { Stops(active, bytes, source, i, out.Length); }
        return false;
      }
      out[i] := bytes(source + i);
      if active != null { BytesJoin(active, source, i); }
      if out[i] == 0 {
        assert active != null ==> StringAt(active, bytes, source, i);
        return true;
      }
    }
    ok := false;
  }
}
