/** The user image: the checks of jordyOS/tools/embed_user.py on the program headers, and what an
    accepted segment list guarantees to the kernel that maps it. */
module UserImage {
  import opened Words

  const PAGE := 4096
  const BASE := 0x4000_0000
  const IMAGE_LIMIT := 0x80_0000
  const LIMIT := IMAGE_LIMIT - PAGE

  datatype ProgramHeader = ProgramHeader(kind: u32, flags: u32, offset: u64, virtual: u64, fileSize: u64, memorySize: u64)

  datatype Segment = Segment(offset: int, memorySize: nat, fileSize: nat, payload: nat, flags: nat)

  /** Readable, no unknown flag, not writable and executable at once. */
  predicate FlagsOk(flags: nat) { flags / 4 == 1 && flags % 4 != 3 }

  predicate RangeOk(s: Segment)
  {
    0 <= s.offset && s.offset % PAGE == 0 && s.offset + s.memorySize <= LIMIT && s.fileSize <= s.memorySize
  }

  predicate HeaderOk(h: ProgramHeader, size: nat)
  {
    && h.kind != 2 && h.kind != 3
    && (h.kind == 1 ==> RangeOk(SegmentOf(h, 0)) && h.offset as int + h.fileSize as int <= size && FlagsOk(h.flags))
  }

  function SegmentOf(h: ProgramHeader, payload: nat): Segment
  {
    Segment(h.virtual as int - BASE, h.memorySize, h.fileSize, payload, h.flags)
  }

  /** Bytes of payload collected from the first `n` headers. */
  function Payload(headers: seq<ProgramHeader>, n: nat): nat
    requires n <= |headers|
  {
    if n == 0 then 0
    else Payload(headers, n - 1) + if headers[n - 1].kind == 1 then headers[n - 1].fileSize as int else 0
  }

  /** The segments of the loadable ones among the first `n` headers. */
  function Loads(headers: seq<ProgramHeader>, n: nat): seq<Segment>
    requires n <= |headers|
  {
    if n == 0 then []
    else if headers[n - 1].kind == 1
    then Loads(headers, n - 1) + [SegmentOf(headers[n - 1], Payload(headers, n - 1))]
    else Loads(headers, n - 1)
  }

  lemma {:induction false} LoadsPrefix(headers: seq<ProgramHeader>, m: nat, n: nat)
    requires m <= n <= |headers|
    ensures |Loads(headers, m)| <= |Loads(headers, n)|
    ensures Loads(headers, n)[..|Loads(headers, m)|] == Loads(headers, m)
    decreases n
  {
    if m < n { LoadsPrefix(headers, m, n - 1); }
  }

  /** The embedder's test of a new segment against a previous one. */
  predicate Overlap(previous: Segment, s: Segment)
  {
    s.offset < previous.offset + (previous.memorySize + (PAGE - 1)) / PAGE * PAGE
    && s.offset + s.memorySize > previous.offset
  }

  ghost predicate Separate(segments: seq<Segment>)
  {
    forall i, j :: 0 <= j < i < |segments| ==> !Overlap(segments[j], segments[i])
  }

  /** The entry segment comes first: at the base, read and execute, with bytes in the file. */
  predicate EntryOk(segments: seq<Segment>)
  {
    segments != [] && segments[0].offset == 0 && segments[0].flags == 5 && segments[0].fileSize > 0
  }

  /** What the embedder accepts. */
  ghost predicate Accepts(headers: seq<ProgramHeader>, size: nat)
  {
    && 0 < |headers| <= 16
    && (forall i :: 0 <= i < |headers| ==> HeaderOk(headers[i], size))
    && Separate(Loads(headers, |headers|)) && EntryOk(Loads(headers, |headers|))
  }

  /** What `prepare` relies on. */
  ghost predicate Usable(segments: seq<Segment>)
  {
    && (forall i :: 0 <= i < |segments| ==> RangeOk(segments[i]) && FlagsOk(segments[i].flags))
    && Separate(segments) && EntryOk(segments)
  }

  lemma {:induction false} LoadsOk(headers: seq<ProgramHeader>, size: nat, n: nat)
    requires n <= |headers| && forall i :: 0 <= i < n ==> HeaderOk(headers[i], size)
    ensures forall i :: 0 <= i < |Loads(headers, n)| ==>
      RangeOk(Loads(headers, n)[i]) && FlagsOk(Loads(headers, n)[i].flags)
  {
    if n > 0 { LoadsOk(headers, size, n - 1); }
  }

  /** An accepted image is usable. */
  lemma {:induction false} AcceptedUsable(headers: seq<ProgramHeader>, size: nat)
    requires Accepts(headers, size)
    ensures Usable(Loads(headers, |headers|))
  {
    LoadsOk(headers, size, |headers|);
  }

  // ----- pages

  /** The segment's mapping loop reaches page `n`. */
  predicate CoversPage(s: Segment, n: int) { s.offset <= n * PAGE < s.offset + s.memorySize }

  lemma {:induction false} RoundUp(size: nat)
    ensures size <= (size + (PAGE - 1)) / PAGE * PAGE < size + PAGE
  {
  }

  /** Segments that pass the test share no page, in whatever order they come. */
  lemma {:induction false} NoSharedPage(previous: Segment, s: Segment, n: int)
    requires RangeOk(previous) && RangeOk(s) && !Overlap(previous, s)
    ensures !(CoversPage(previous, n) && CoversPage(s, n))
  {
    RoundUp(previous.memorySize);
  }

  /** The first byte past the pages of a segment. */
  function PageEnd(s: Segment): int { s.offset + (s.memorySize + (PAGE - 1)) / PAGE * PAGE }

  /** An empty segment lies strictly inside the pages of another. */
  predicate EmptyInside(previous: Segment, s: Segment)
  {
    || (s.memorySize == 0 && previous.offset < s.offset < PageEnd(previous))
    || (previous.memorySize == 0 && s.offset < previous.offset < s.offset + s.memorySize)
  }

  ghost predicate SharePage(previous: Segment, s: Segment) { exists n: int :: CoversPage(previous, n) && CoversPage(s, n) }

  /** The test rejects exactly the segments that share a page, and empty ones inside the pages of
      another, which share none. */
  lemma {:induction false} OverlapExact(previous: Segment, s: Segment)
    requires RangeOk(previous) && RangeOk(s)
    ensures Overlap(previous, s) <==> SharePage(previous, s) || EmptyInside(previous, s)
    ensures !(SharePage(previous, s) && EmptyInside(previous, s))
  {
    RoundUp(previous.memorySize);
    if previous.memorySize > 0 && s.memorySize > 0 { OccupiedExact(previous, s); }
    forall n: int | CoversPage(previous, n) && CoversPage(s, n) ensures previous.memorySize > 0 && s.memorySize > 0 { }
  }

  /** A segment list that is turned down although no two segments share a page. */
  lemma {:induction false} EmptyRejected()
    ensures var code, mark := Segment(0, 8192, 1, 0, 5), Segment(4096, 0, 0, 1, 4);
      && RangeOk(code) && RangeOk(mark) && FlagsOk(code.flags) && FlagsOk(mark.flags) && EntryOk([code, mark])
      && !SharePage(code, mark) && Overlap(code, mark) && !Separate([code, mark])
  {
    var code, mark := Segment(0, 8192, 1, 0, 5), Segment(4096, 0, 0, 1, 4);
    OverlapExact(code, mark);
    assert Overlap([code, mark][0], [code, mark][1]);
  }

  /** For segments that occupy memory the test is exact: they overlap when they share a page. */
  lemma {:induction false} OccupiedExact(previous: Segment, s: Segment)
    requires RangeOk(previous) && RangeOk(s) && previous.memorySize > 0 && s.memorySize > 0
    ensures Overlap(previous, s) <==> SharePage(previous, s)
  {
    forall n: int | CoversPage(previous, n) && CoversPage(s, n) ensures Overlap(previous, s) {
      NoSharedIf(previous, s, n);
    }
    if Overlap(previous, s) {
      var n := Max(previous.offset, s.offset) / PAGE;
      assert n * PAGE == Max(previous.offset, s.offset);
      if previous.offset < s.offset { UnderRound(s.offset - previous.offset, previous.memorySize); }
      assert CoversPage(previous, n) && CoversPage(s, n);
    }
  }

  lemma {:induction false} NoSharedIf(previous: Segment, s: Segment, n: int)
    requires RangeOk(previous) && RangeOk(s) && CoversPage(previous, n) && CoversPage(s, n)
    ensures Overlap(previous, s)
  {
    RoundUp(previous.memorySize);
  }

  lemma {:induction false} UnderRound(d: nat, size: nat)
    requires d % PAGE == 0 && d < (size + (PAGE - 1)) / PAGE * PAGE
    ensures d < size
  {
  }

  // ----- the embedder

  /** `embed`, on program headers already unpacked from a file of `size` bytes. */
  method Embed(headers: seq<ProgramHeader>, size: nat) returns (r: Option<seq<Segment>>)
    ensures r.Some? <==> Accepts(headers, size)
    ensures r.Some? ==> r.value == Loads(headers, |headers|)
  {
    if |headers| == 0 || |headers| > 16 { return None; }
    var segments, payload := [], 0;
    for i := 0 to |headers|
      invariant segments == Loads(headers, i) && payload == Payload(headers, i)
      invariant forall k :: 0 <= k < i ==> HeaderOk(headers[k], size)
      invariant Separate(segments)
    {
      var h := headers[i];
      if !HeaderOk(h, size) { return None; }
      if h.kind == 1 {
        var s := SegmentOf(h, payload);
        LoadsPrefix(headers, i + 1, |headers|);
        assert Loads(headers, |headers|)[..|segments| + 1] == segments + [s];
        for j := 0 to |segments|
          invariant forall k :: 0 <= k < j ==> !Overlap(segments[k], s)
        {
          if Overlap(segments[j], s) {
            assert Loads(headers, |headers|)[j] == segments[j] && Loads(headers, |headers|)[|segments|] == s;
            return None;
          }
        }
        segments := segments + [s];
        payload := payload + h.fileSize;
      }
    }
    if !EntryOk(segments) { return None; }
    r := Some(segments);
  }
}
