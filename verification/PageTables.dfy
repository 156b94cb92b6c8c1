/** The mappings that jordyOS/isolation.c gives a user process: which page goes to which frame with
    which permissions, and why processes in different slots share nothing. */
module PageTables {
  import opened Bits
  import opened UserImage

  const STARTUP := BASE + IMAGE_LIMIT
  const STACK_BOTTOM := STARTUP + 8192
  const STACK_SIZE := 0x4_0000
  const STACK_TOP := STACK_BOTTOM + STACK_SIZE
  const MARKER := BASE + IMAGE_LIMIT - PAGE

  const IMAGE_PAGES := IMAGE_LIMIT / PAGE       // 2048
  const STACK_PAGES := STACK_SIZE / PAGE        // 64
  const GUARD_PAGE := IMAGE_PAGES + 1
  const FIRST_STACK_PAGE := IMAGE_PAGES + 2
  const WINDOW_PAGES := FIRST_STACK_PAGE + STACK_PAGES
  const TABLE_PAGES := 5 * 512

  // ----- physical layout: the `Process` records of the two slots, back to back

  const TABLES_SIZE := 8 * PAGE
  const PROCESS_SIZE := TABLES_SIZE + IMAGE_LIMIT + PAGE + STACK_SIZE

  /** Where the array of processes lies: page aligned, below the sign bit of an entry. */
  predicate Placed(processes: nat) { processes % PAGE == 0 && processes + 2 * PROCESS_SIZE <= 0x8000_0000_0000_0000 }

  function Process(processes: nat, slot: nat): nat { processes + slot * PROCESS_SIZE }

  function Memory(process: nat): nat { process + TABLES_SIZE }

  function StartupPage(process: nat): nat { Memory(process) + IMAGE_LIMIT }

  function Stack(process: nat): nat { StartupPage(process) + PAGE }

  // ----- mappings

  datatype Mapping = Mapping(page: nat, physical: nat, writable: bool, noExecute: bool)

  /** Mappings of the first `k` pages of a segment. */
  function SegmentMaps(process: nat, s: Segment, k: nat): seq<Mapping>
    requires s.offset >= 0
  {
    if k == 0 then []
    else
      SegmentMaps(process, s, k - 1) +
      [Mapping(s.offset / PAGE + (k - 1), Memory(process) + s.offset + (k - 1) * PAGE,
               s.flags / 2 % 2 == 1, s.flags % 2 == 0)]
  }

  /** Turns of the mapping loop of a segment. */
  function PagesOf(s: Segment): nat { (s.memorySize + (PAGE - 1)) / PAGE }

  function ImageMaps(process: nat, segments: seq<Segment>): seq<Mapping>
    requires forall i :: 0 <= i < |segments| ==> segments[i].offset >= 0
  {
    if segments == [] then []
    else
      var n := |segments| - 1;
      ImageMaps(process, segments[..n]) + SegmentMaps(process, segments[n], PagesOf(segments[n]))
  }

  function StackMaps(process: nat, k: nat): seq<Mapping>
  {
    if k == 0 then []
    else
      StackMaps(process, k - 1) +
      [Mapping(FIRST_STACK_PAGE + (k - 1), Stack(process) + (k - 1) * PAGE, true, true)]
  }

  function FixedMaps(process: nat): seq<Mapping>
  {
    [Mapping(IMAGE_PAGES - 1, Memory(process) + IMAGE_LIMIT - PAGE, true, true),
     Mapping(IMAGE_PAGES, StartupPage(process), false, true)]
  }

  /** Every mapping `prepare` makes, in order. */
  function AllMaps(process: nat, segments: seq<Segment>): seq<Mapping>
    requires forall i :: 0 <= i < |segments| ==> segments[i].offset >= 0
  {
    ImageMaps(process, segments) + FixedMaps(process) + StackMaps(process, STACK_PAGES)
  }

  // ----- what each mapping is

  /** A page goes to the frame of the same number in its process; the stack's skip the guard. */
  function FrameOf(process: nat, page: nat): nat
  {
    Memory(process) + (if page <= IMAGE_PAGES then page else page - 1) * PAGE
  }

  /** A mapping of a page that some segment covers, with that segment's permissions. */
  ghost predicate FromSegment(segments: seq<Segment>, x: Mapping)
  {
    exists i :: 0 <= i < |segments| && CoversPage(segments[i], x.page)
      && x.writable == (segments[i].flags / 2 % 2 == 1) && x.noExecute == (segments[i].flags % 2 == 0)
  }

  ghost predicate Proper(process: nat, segments: seq<Segment>, x: Mapping)
  {
    && x.physical == FrameOf(process, x.page)
    && x.page < WINDOW_PAGES && x.page != GUARD_PAGE
    && (x.page < IMAGE_PAGES - 1 ==> FromSegment(segments, x))
    && (x.page >= IMAGE_PAGES - 1 ==> x.noExecute && x.writable == (x.page != IMAGE_PAGES))
  }

  ghost predicate AllProper(process: nat, segments: seq<Segment>, maps: seq<Mapping>)
  {
    forall k :: 0 <= k < |maps| ==> Proper(process, segments, maps[k])
  }

  lemma {:induction false} PageIndex(s: Segment, t: nat)
    requires RangeOk(s) && t < PagesOf(s)
    ensures CoversPage(s, s.offset / PAGE + t) && s.offset / PAGE + t < IMAGE_PAGES - 1
    ensures s.offset + t * PAGE == (s.offset / PAGE + t) * PAGE
  {
  }

  lemma {:induction false} SegmentProper(process: nat, segments: seq<Segment>, i: nat, k: nat)
    requires i < |segments| && RangeOk(segments[i]) && k <= PagesOf(segments[i])
    ensures AllProper(process, segments, SegmentMaps(process, segments[i], k))
    ensures |SegmentMaps(process, segments[i], k)| == k
    ensures forall t :: 0 <= t < k ==> SegmentMaps(process, segments[i], k)[t].page == segments[i].offset / PAGE + t
    decreases k
  {
    if k > 0 {
      SegmentProper(process, segments, i, k - 1);
      PageIndex(segments[i], k - 1);
      var x := SegmentMaps(process, segments[i], k)[k - 1];
      assert FromSegment(segments, x);
      assert Proper(process, segments, x);
    }
  }

  lemma {:induction false} ProperPrefix(process: nat, segments: seq<Segment>, n: nat, maps: seq<Mapping>)
    requires n <= |segments| && AllProper(process, segments[..n], maps)
    ensures AllProper(process, segments, maps)
  {
    forall k | 0 <= k < |maps| ensures Proper(process, segments, maps[k]) {
      assert Proper(process, segments[..n], maps[k]);
      if maps[k].page < IMAGE_PAGES - 1 {
        assert FromSegment(segments[..n], maps[k]);
        var i :| 0 <= i < n && CoversPage(segments[..n][i], maps[k].page)
          && maps[k].writable == (segments[..n][i].flags / 2 % 2 == 1)
          && maps[k].noExecute == (segments[..n][i].flags % 2 == 0);
        assert segments[..n][i] == segments[i];
      }
    }
  }

  ghost predicate InRange(segments: seq<Segment>)
  {
    forall i :: 0 <= i < |segments| ==> RangeOk(segments[i])
  }

  lemma {:induction false} ImageProper(process: nat, segments: seq<Segment>)
    requires InRange(segments)
    ensures AllProper(process, segments, ImageMaps(process, segments))
    decreases |segments|
  {
    if segments != [] {
      var n := |segments| - 1;
      ImageProper(process, segments[..n]);
      ProperPrefix(process, segments, n, ImageMaps(process, segments[..n]));
      SegmentProper(process, segments, n, PagesOf(segments[n]));
    }
  }

  lemma {:induction false} StackProper(process: nat, segments: seq<Segment>, k: nat)
    requires k <= STACK_PAGES
    ensures AllProper(process, segments, StackMaps(process, k)) && |StackMaps(process, k)| == k
    ensures forall t :: 0 <= t < k ==> StackMaps(process, k)[t].page == FIRST_STACK_PAGE + t
    decreases k
  {
    if k > 0 { StackProper(process, segments, k - 1); }
  }

  lemma {:induction false} EveryMapProper(process: nat, segments: seq<Segment>)
    requires InRange(segments)
    ensures AllProper(process, segments, AllMaps(process, segments))
  {
    ImageProper(process, segments);
    StackProper(process, segments, STACK_PAGES);
    assert AllProper(process, segments, FixedMaps(process));
  }

  // ----- no page twice

  ghost predicate PagesDistinct(maps: seq<Mapping>)
  {
    forall j, k :: 0 <= j < k < |maps| ==> maps[j].page != maps[k].page
  }

  ghost predicate Apart(a: seq<Mapping>, b: seq<Mapping>)
  {
    forall j, k :: 0 <= j < |a| && 0 <= k < |b| ==> a[j].page != b[k].page
  }

  lemma {:induction false} DistinctConcat(a: seq<Mapping>, b: seq<Mapping>)
    requires PagesDistinct(a) && PagesDistinct(b) && Apart(a, b)
    ensures PagesDistinct(a + b)
  {
  }

  lemma {:induction false} ImageDistinct(process: nat, segments: seq<Segment>)
    requires InRange(segments) && Separate(segments)
    ensures PagesDistinct(ImageMaps(process, segments))
    ensures forall k :: 0 <= k < |ImageMaps(process, segments)| ==> ImageMaps(process, segments)[k].page < IMAGE_PAGES - 1
    decreases |segments|
  {
    if segments != [] {
      var n := |segments| - 1;
      var front, last := ImageMaps(process, segments[..n]), SegmentMaps(process, segments[n], PagesOf(segments[n]));
      ImageDistinct(process, segments[..n]);
      ImageProper(process, segments[..n]);
      SegmentProper(process, segments, n, PagesOf(segments[n]));
      forall j, k | 0 <= j < |front| && 0 <= k < |last| ensures front[j].page != last[k].page {
        PageIndex(segments[n], k);
        assert Proper(process, segments[..n], front[j]);
        var i :| 0 <= i < n && CoversPage(segments[..n][i], front[j].page);
        NoSharedPage(segments[i], segments[n], front[j].page);
      }
      forall k | 0 <= k < |last| ensures last[k].page < IMAGE_PAGES - 1 { PageIndex(segments[n], k); }
      DistinctConcat(front, last);
    }
  }

  /** `prepare` maps no page twice. */
  lemma {:induction false} MappedOnce(process: nat, segments: seq<Segment>)
    requires Usable(segments)
    ensures PagesDistinct(AllMaps(process, segments))
  {
    ImageDistinct(process, segments);
    StackProper(process, segments, STACK_PAGES);
    DistinctConcat(ImageMaps(process, segments), FixedMaps(process));
    DistinctConcat(ImageMaps(process, segments) + FixedMaps(process), StackMaps(process, STACK_PAGES));
  }

  // ----- isolation

  lemma {:induction false} NoWriteAndExecute(process: nat, segments: seq<Segment>, x: Mapping)
    requires Usable(segments) && Proper(process, segments, x)
    ensures !x.writable || x.noExecute
  {
    if x.page < IMAGE_PAGES - 1 {
      var i :| 0 <= i < |segments| && CoversPage(segments[i], x.page)
        && x.writable == (segments[i].flags / 2 % 2 == 1) && x.noExecute == (segments[i].flags % 2 == 0);
      assert FlagsOk(segments[i].flags);
    }
  }

  /** Every mapping of an accepted image: an aligned frame of its own slot, past the slot's page
      tables; never writable and executable; never the stack's guard page. */
  lemma {:induction false} MappingSafe(processes: nat, slot: nat, segments: seq<Segment>, k: nat)
    requires Placed(processes) && slot < 2 && Usable(segments)
    requires k < |AllMaps(Process(processes, slot), segments)|
    ensures var x := AllMaps(Process(processes, slot), segments)[k];
      && x.physical % PAGE == 0
      && Process(processes, slot) + TABLES_SIZE <= x.physical
      && x.physical + PAGE <= Process(processes, slot) + PROCESS_SIZE
      && (!x.writable || x.noExecute)
      && x.page != GUARD_PAGE && x.page < WINDOW_PAGES
  {
    var p := Process(processes, slot);
    EveryMapProper(p, segments);
    var x := AllMaps(p, segments)[k];
    assert Proper(p, segments, x);
    NoWriteAndExecute(p, segments, x);
  }

  /** Distinct pages of a process have distinct frames. */
  lemma {:induction false} FramesDistinct(process: nat, segments: seq<Segment>, j: nat, k: nat)
    requires Usable(segments) && j < k < |AllMaps(process, segments)|
    ensures AllMaps(process, segments)[j].physical != AllMaps(process, segments)[k].physical
  {
    MappedOnce(process, segments);
    EveryMapProper(process, segments);
    var x, y := AllMaps(process, segments)[j], AllMaps(process, segments)[k];
    assert Proper(process, segments, x) && Proper(process, segments, y);
  }

  /** Two slots share no frame. */
  lemma {:induction false} SlotsApart(processes: nat, a: seq<Segment>, b: seq<Segment>, j: nat, k: nat)
    requires Placed(processes) && Usable(a) && Usable(b)
    requires j < |AllMaps(Process(processes, 0), a)| && k < |AllMaps(Process(processes, 1), b)|
    ensures AllMaps(Process(processes, 0), a)[j].physical + PAGE <= AllMaps(Process(processes, 1), b)[k].physical
  {
    MappingSafe(processes, 0, a, j);
    MappingSafe(processes, 1, b, k);
  }

  // ----- page-table entries

  const P := 1
  const W := 2
  const U := 4
  const NX := 0x8000_0000_0000_0000

  function Flags(writable: bool, noExecute: bool): nat
  {
    (if writable then W else 0) + (if noExecute then NX else 0)
  }

  /** The entry for a mapping. */
  function Encode(x: Mapping): nat { x.physical + P + U + Flags(x.writable, x.noExecute) }

  /** User access is granted: `(entry & (P|U)) == (P|U)`. */
  predicate UserEntry(e: nat) { And(e, P + U) == P + U }

  predicate WriteEntry(e: nat) { And(e, W) != 0 }

  function Target(e: nat): nat { e % NX / PAGE * PAGE }

  lemma {:induction false} LowFlags(e: nat)
    ensures And(e, 5) == e % 2 + 4 * (e / 4 % 2)
    ensures And(e, 2) == 2 * (e / 2 % 2)
  {
    AndSplit(e, 5);
    AndSplit(e / 2, 2);
    AndSplit(e / 4, 1);
    AndSplit(e, 2);
    AndSplit(e / 2, 1);
    assert And(e / 8, 0) == 0 && And(e / 4, 0) == 0;
  }

  /** An entry says what its mapping says, and nothing is said by an empty entry. */
  lemma {:induction false} EncodeDecodes(x: Mapping)
    requires x.physical % PAGE == 0 && x.physical < NX
    ensures UserEntry(Encode(x)) && (WriteEntry(Encode(x)) <==> x.writable)
    ensures Encode(x) >= NX <==> x.noExecute
    ensures Target(Encode(x)) == x.physical
    ensures !UserEntry(0)
  {
    LowFlags(Encode(x));
    LowFlags(0);
    EntryDigits(x.physical / PAGE, if x.writable then 1 else 0, if x.noExecute then 1 else 0);
  }

  lemma {:induction false} EntryDigits(q: nat, w: nat, nx: nat)
    requires q * PAGE < NX && w <= 1 && nx <= 1
    ensures var e := q * PAGE + 5 + 2 * w + nx * NX;
      && e % 2 == 1 && e / 4 % 2 == 1 && e / 2 % 2 == w
      && e % NX == q * PAGE + 5 + 2 * w && (e >= NX <==> nx == 1) && e % NX / PAGE * PAGE == q * PAGE
  {
    var r := 5 + 2 * w;
    assert q * PAGE + r + nx * NX == 8 * (q * 512 + nx * 0x1000_0000_0000_0000) + r;
    Octal(q * 512 + nx * 0x1000_0000_0000_0000, r);
    DivUnique(q * PAGE + r + nx * NX, NX, nx, q * PAGE + r);
    DivUnique(q * PAGE + r, PAGE, q, r);
  }

  lemma {:induction false} Octal(z: nat, r: nat)
    requires r < 8
    ensures (8 * z + r) % 2 == r % 2 && (8 * z + r) / 2 % 2 == r / 2 % 2 && (8 * z + r) / 4 % 2 == r / 4
  {
    DivUnique(8 * z + r, 4, 2 * z + r / 4, r % 4);
    DivUnique(8 * z + r, 2, 4 * z + r / 2, r % 2);
    DivUnique(4 * z + r / 2, 2, 2 * z + r / 4, r / 2 % 2);
    DivUnique(2 * z + r / 4, 2, z, r / 4);
  }

  /** Disjoint bits: or is sum. */
  lemma {:induction false} OrDisjoint(a: nat, b: nat)
    requires And(a, b) == 0
    ensures Or(a, b) == a + b
    decreases a
  {
    if a > 0 && b > 0 {
      AndSplit(a, b);
      OrDisjoint(a / 2, b / 2);
    }
  }

  lemma {:induction false} AndHighBit(y: nat, b: nat, k: nat)
    requires y < Pow2(k) && b < Pow2(k)
    ensures And(y, Pow2(k) + b) == And(y, b)
    decreases k
  {
    if k > 0 {
      AndSplit(y, Pow2(k) + b);
      AndSplit(y, b);
      AndHighBit(y / 2, b / 2, k - 1);
    }
  }

  /** `physical | P | U | flags`. */
  lemma {:induction false} EncodeBits(x: Mapping)
    requires x.physical % PAGE == 0 && x.physical < NX
    ensures Or(Or(Or(x.physical, P), U), Flags(x.writable, x.noExecute)) == Encode(x)
  {
    OrPresent(x.physical);
    OrFlags(x.physical + P + U, x.writable, x.noExecute);
  }

  lemma {:induction false} OrPresent(f: nat)
    requires f % PAGE == 0
    ensures Or(Or(f, P), U) == f + P + U
  {
    PageDigits(f);
    BelowPage(f, P);
    OrDisjoint(f, P);
    BelowPage(f + P, U);
    OrDisjoint(f + P, U);
  }

  lemma {:induction false} PageDigits(f: nat)
    requires f % PAGE == 0
    ensures f % 2 == 0 && (f + P) / 4 % 2 == 0
  {
    var q := f / PAGE;
    assert f == 8 * (512 * q);
    Octal(512 * q, 0);
    Octal(512 * q, P);
  }

  lemma {:induction false} OrFlags(y: nat, writable: bool, noExecute: bool)
    requires y < NX && y / 2 % 2 == 0
    ensures Or(y, Flags(writable, noExecute)) == y + Flags(writable, noExecute)
  {
    var low := if writable then W else 0;
    Pow2Values();
    BelowPage(y, low);
    AndHighBit(y, low, 63);
    OrDisjoint(y, Flags(writable, noExecute));
  }

  lemma {:induction false} BelowPage(a: nat, v: nat)
    requires v == 0 || (v == P && a % 2 == 0) || (v == W && a / 2 % 2 == 0) || (v == U && a / 4 % 2 == 0)
    ensures And(a, v) == 0
  {
    AndSplit(a, v);
    AndSplit(a / 2, v / 2);
    AndSplit(a / 4, v / 4);
  }
}
