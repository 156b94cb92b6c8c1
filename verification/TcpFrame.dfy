/** TCP segments on the wire: what `output` builds, what `tcp_input` reads back, and the frame
    `send_to` assembles in place around it. */
module TcpFrame {
  import opened Words
  import opened Buffers
  import opened Packet
  import opened TcpModel
  import TcpWire
  import TcpRun

  function HeaderSize(flags: u8): nat { if Syn(flags) then 24 else 20 }

  /** The options of a SYN: the maximum segment size. */
  function Options(flags: u8): seq<u8> { if Syn(flags) then [2, 4] + Write16(TCP_MSS) else [] }

  /** `output`: the segment bytes, checksum field still zero. */
  function Output(local: u16, peer: u16, sequence: u32, acknowledgement: u32, flags: u8, window: u16,
                  payload: seq<u8>): (b: seq<u8>)
    ensures |b| == HeaderSize(flags) + |payload|
  {
    Write16(local) + Write16(peer) + Write32(sequence) + Write32(acknowledgement) +
    [HeaderSize(flags) / 4 * 16, flags] + Write16(window) + [0, 0, 0, 0] + Options(flags) + payload
  }

  /** The header tests and fields at the front of `tcp_input`. */
  function Parse(b: seq<u8>): Option<Incoming>
  {
    if |b| < 20 || b[12] / 16 < 5 || b[12] / 16 * 4 > |b| then None
    else
      var header := b[12] / 16 * 4;
      Some(Incoming(Read16(b, 0), Read16(b, 2), Read32(b, 4), Read32(b, 8), b[13], Read16(b, 14),
                    b[20..header], b[header..]))
  }

  lemma {:induction false} OutputFields(local: u16, peer: u16, sequence: u32, acknowledgement: u32, flags: u8,
                                        window: u16, payload: seq<u8>)
    ensures var b := Output(local, peer, sequence, acknowledgement, flags, window, payload);
      && b[0..2] == Write16(local) && b[2..4] == Write16(peer)
      && b[4..8] == Write32(sequence) && b[8..12] == Write32(acknowledgement)
      && b[12] == HeaderSize(flags) / 4 * 16 && b[13] == flags && b[14..16] == Write16(window)
      && b[16] == 0 && b[17] == 0
      && b[20..HeaderSize(flags)] == Options(flags) && b[HeaderSize(flags)..] == payload
  {
    var b := Output(local, peer, sequence, acknowledgement, flags, window, payload);
    var front := Write16(local) + Write16(peer) + Write32(sequence) + Write32(acknowledgement) +
                 [HeaderSize(flags) / 4 * 16, flags] + Write16(window) + [0, 0, 0, 0];
    assert |front| == 20 && b == front + (Options(flags) + payload);
    FrontFields(Write16(local), Write16(peer), Write32(sequence), Write32(acknowledgement),
                [HeaderSize(flags) / 4 * 16, flags], Write16(window), [0, 0, 0, 0]);
    assert forall i :: 0 <= i < 20 ==> b[i] == front[i];
    assert b[0..2] == front[0..2] && b[2..4] == front[2..4] && b[4..8] == front[4..8];
    assert b[8..12] == front[8..12] && b[14..16] == front[14..16];
    assert b[20..HeaderSize(flags)] == Options(flags) && b[HeaderSize(flags)..] == payload;
  }

  lemma {:induction false} FrontFields(p: seq<u8>, q: seq<u8>, r: seq<u8>, s: seq<u8>, t: seq<u8>, w: seq<u8>, z: seq<u8>)
    requires |p| == |q| == |t| == |w| == 2 && |r| == |s| == |z| == 4
    ensures var b := p + q + r + s + t + w + z;
      && b[0..2] == p && b[2..4] == q && b[4..8] == r && b[8..12] == s && b[12] == t[0] && b[13] == t[1]
      && b[14..16] == w && b[16] == z[0] && b[17] == z[1]
  {
  }

  /** `tcp_input` reads back from `output`'s bytes exactly the fields that went in, whatever
      checksum was inserted. */
  lemma {:induction false} OutputParses(local: u16, peer: u16, sequence: u32, acknowledgement: u32, flags: u8,
                                        window: u16, payload: seq<u8>, c: u16)
    ensures var b := Output(local, peer, sequence, acknowledgement, flags, window, payload);
      Parse(Insert(b, 16, c)) ==
      Some(Incoming(local, peer, sequence, acknowledgement, flags, window, Options(flags), payload))
  {
    var b := Output(local, peer, sequence, acknowledgement, flags, window, payload);
    OutputFields(local, peer, sequence, acknowledgement, flags, window, payload);
    SameElsewhere(b, c, HeaderSize(flags));
    ParseFields(Insert(b, 16, c), HeaderSize(flags), local, peer, sequence, acknowledgement, window);
  }

  /** A checksum at offset 16 touches no other field. */
  lemma {:induction false} SameElsewhere(b: seq<u8>, c: u16, n: nat)
    requires 20 <= n <= |b|
    ensures var d := Insert(b, 16, c);
      && d[0..2] == b[0..2] && d[2..4] == b[2..4] && d[4..8] == b[4..8] && d[8..12] == b[8..12]
      && d[12] == b[12] && d[13] == b[13] && d[14..16] == b[14..16] && d[20..n] == b[20..n] && d[n..] == b[n..]
  {
  }

  lemma {:induction false} ParseFields(d: seq<u8>, n: nat, local: u16, peer: u16, sequence: u32,
                                       acknowledgement: u32, window: u16)
    requires (n == 20 || n == 24) && n <= |d| && d[12] == n / 4 * 16
    requires d[0..2] == Write16(local) && d[2..4] == Write16(peer) && d[14..16] == Write16(window)
    requires d[4..8] == Write32(sequence) && d[8..12] == Write32(acknowledgement)
    ensures Parse(d) == Some(Incoming(local, peer, sequence, acknowledgement, d[13], window, d[20..n], d[n..]))
  {
    ReadWrite16(d, 0, local);
    ReadWrite16(d, 2, peer);
    ReadWrite32(d, 4, sequence);
    ReadWrite32(d, 8, acknowledgement);
    ReadWrite16(d, 14, window);
  }

  /** End to end: a segment of any connection reaches the peer's decoder intact, and its TCP input
      sees the same ports, numbers, flags, window, options and data. */
  lemma {:induction false} Delivery(destination: u32, local: u16, peer: u16, sequence: u32, acknowledgement: u32,
                                    flags: u8, window: u16, payload: seq<u8>)
    requires |payload| <= TCP_MSS
    ensures var b := Output(local, peer, sequence, acknowledgement, flags, window, payload);
      var d := Datagram(destination, b);
      && Decode(d) == Some(Header(NET_IP, destination, local, peer, 20 + |b|, TCP)) && |d| == 20 + |b|
      && Parse(d[20..]) ==
         Some(Incoming(local, peer, sequence, acknowledgement, flags, window, Options(flags), payload))
  {
    var b := Output(local, peer, sequence, acknowledgement, flags, window, payload);
    OutputFields(local, peer, sequence, acknowledgement, flags, window, payload);
    ReadWrite16(b, 0, local);
    ReadWrite16(b, 2, peer);
    SendDecodes(destination, b);
    HeaderFilled(destination, b);
    OutputParses(local, peer, sequence, acknowledgement, flags, window, payload,
                 Checksum(b, Pseudo(IpHeader(destination, |b|), TCP, |b|)));
  }

  /** Every transmission of every run, as bytes: accepted by the decoder and read back by TCP input
      with the file's bytes at their own sequence number. */
  lemma {:induction false} WireDelivery(c: Tcp, events: seq<Event>, j: nat, destination: u32, acknowledgement: u32,
                                        window: u16)
    requires Initial(c) && j < |Run(c, events).snd.wire|
    ensures |Run(c, events).snd.wire[j].payload| <= TCP_MSS
    ensures var r := Run(c, events);
      var e := r.snd.wire[j];
      && TcpWire.SentOk(r.snd.isn, r.snd.tx, e)
      && var b := Output(r.localPort, r.peerPort, e.sequence, acknowledgement, e.flags, window, e.payload);
         var d := Datagram(destination, b);
         && Decode(d) == Some(Header(NET_IP, destination, r.localPort, r.peerPort, 20 + |b|, TCP)) && |d| == 20 + |b|
         && Parse(d[20..]) == Some(Incoming(r.localPort, r.peerPort, e.sequence, acknowledgement, e.flags, window,
                                         Options(e.flags), e.payload))
  {
    TcpRun.Fidelity(c, events, j, 0);
    var r := Run(c, events);
    var e := r.snd.wire[j];
    Delivery(destination, r.localPort, r.peerPort, e.sequence, acknowledgement, e.flags, window, e.payload);
  }

  // ----- assembly in place

  method Put(a: array<u8>, at: nat, text: seq<u8>)
    requires at + |text| <= a.Length
    modifies a
    ensures a[..] == Paste(old(a[..]), at, text)
    ensures forall i :: 0 <= i < a.Length && !(at <= i < at + |text|) ==> a[i] == old(a[i])
  {
    forall i | 0 <= i < |text| { a[at + i] := text[i]; }
    assert a[..] == Paste(old(a[..]), at, text);
  }

  /** Stores a run of bytes between what lies before and behind. */
  method PutRun(a: array<u8>, at: nat, run: seq<u8>)
    requires at + |run| <= a.Length
    modifies a
    ensures a[..at] == old(a[..at]) && a[at..at + |run|] == run
    ensures forall i :: at + |run| <= i < a.Length ==> a[i] == old(a[i])
  {
    Put(a, at, run);
  }

  /** Stores into a run of bytes that lies at `at`. */
  method PutInside(a: array<u8>, at: nat, ghost run: seq<u8>, o: nat, text: seq<u8>)
    requires at + |run| <= a.Length && a[at..at + |run|] == run && o + |text| <= |run|
    modifies a
    ensures a[..at] == old(a[..at]) && a[at..at + |run|] == Paste(run, o, text)
    ensures forall i :: at + |run| <= i < a.Length ==> a[i] == old(a[i])
  {
    PasteInside(a[..], at, run, o, text);
    Put(a, at + o, text);
    assert a[at..at + |run|] == a[..][at..at + |run|];
  }

  /** Pasting into a buffer pastes into the run of bytes that lies there. */
  lemma {:induction false} PasteInside(s: seq<u8>, at: nat, run: seq<u8>, o: nat, text: seq<u8>)
    requires at + |run| <= |s| && s[at..at + |run|] == run && o + |text| <= |run|
    ensures Paste(s, at + o, text)[at..at + |run|] == Paste(run, o, text)
  {
    var t := Paste(s, at + o, text);
    forall i | 0 <= i < |run| ensures t[at + i] == Paste(run, o, text)[i] {
      assert s[at + i] == run[i];
    }
  }

  /** `send_to` up to the driver: fills a zeroed frame buffer with Ethernet, IPv4 and TCP parts. */
  method SendTo(frame: array<u8>, destination: u32, to: seq<u8>, from: seq<u8>, body: seq<u8>)
    requires |to| == 6 && |from| == 6 && 20 <= |body| <= 1480 && frame.Length >= 34 + |body|
    requires forall i :: 0 <= i < frame.Length ==> frame[i] == 0
    modifies frame
    ensures frame[..14] == to + from + [8, 0]
    ensures frame[14..34 + |body|] == Datagram(destination, body)
  {
    Put(frame, 0, to + from + [8, 0]);
    ghost var link := frame[..14];
    assert link == to + from + [8, 0];
    FillIp(frame, destination, |body|);
    ghost var h := IpHeader(destination, |body|);
    ghost var filled := Insert(h, 10, Checksum(h, 0));
    assert frame[..34] == link + filled by { assert frame[..14] + frame[14..34] == frame[..34]; }
    FillTcp(frame, body, h);
    assert frame[..14] == frame[..34][..14] && frame[14..34] == frame[..34][14..];
    assert frame[14..34 + |body|] == frame[14..34] + frame[34..34 + |body|];
  }

  /** The IPv4 header fields, then its checksum. */
  method FillIp(frame: array<u8>, destination: u32, size: nat)
    requires size <= 1480 && frame.Length >= 34 && forall i :: 14 <= i < frame.Length ==> frame[i] == 0
    modifies frame
    ensures frame[..14] == old(frame[..14])
    ensures var h := IpHeader(destination, size); frame[14..34] == Insert(h, 10, Checksum(h, 0))
    ensures forall i :: 34 <= i < frame.Length ==> frame[i] == 0
  {
    var h := IpHeader(destination, size);
    PutRun(frame, 14, h);
    var c := ComputeChecksum(frame[14..34], 0);
    PutInside(frame, 14, h, 10, Write16(c));
  }

  /** The header checksum is not part of the pseudo-header. */
  lemma {:induction false} PseudoFilled(h: seq<u8>, c: u16, size: nat)
    requires |h| == 20
    ensures Pseudo(Insert(h, 10, c), TCP, size) == Pseudo(h, TCP, size)
  {
    var t := Insert(h, 10, c);
    assert forall i :: 12 <= i < 20 ==> t[i] == h[i];
    assert t[12] == h[12] && t[13] == h[13] && t[14] == h[14] && t[15] == h[15];
    assert t[16] == h[16] && t[17] == h[17] && t[18] == h[18] && t[19] == h[19];
  }

  /** The segment, then its checksum over the pseudo-header. */
  method FillTcp(frame: array<u8>, body: seq<u8>, ghost h: seq<u8>)
    requires |h| == 20 && 20 <= |body| <= 1480 && frame.Length >= 34 + |body|
    requires frame[14..34] == Insert(h, 10, Checksum(h, 0))
    modifies frame
    ensures frame[..34] == old(frame[..34])
    ensures frame[34..34 + |body|] == Insert(body, 16, Checksum(body, Pseudo(h, TCP, |body|)))
  {
    PutRun(frame, 34, body);
    assert frame[14..34] == frame[..34][14..] == old(frame[..34])[14..] == old(frame[14..34]);
    var pseudo := Pseudo(frame[14..34], TCP, |body|);
    PseudoFilled(h, Checksum(h, 0), |body|);
    var c := ComputeChecksum(frame[34..34 + |body|], pseudo);
    PutInside(frame, 34, body, 16, Write16(c));
  }
}
