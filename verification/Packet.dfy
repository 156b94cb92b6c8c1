/** The packet codec of jordyOS/net: big-endian fields, the Internet checksum, the IPv4 decoder, and
    the encoders `output` and `send_to`, with encoder and decoder proved to agree. */
module Packet {
  import opened Words
  import opened Bits
  import opened Buffers

  const NET_IP: u32 := 0xc000_0202
  const ICMP := 1
  const TCP := 6
  const UDP := 17

  // ----- big-endian fields

  function Read16(b: seq<u8>, i: nat): u16
    requires i + 2 <= |b|
  {
    b[i] as int * 256 + b[i + 1] as int
  }

  function Read32(b: seq<u8>, i: nat): u32
    requires i + 4 <= |b|
  {
    Read16(b, i) as int * 0x1_0000 + Read16(b, i + 2) as int
  }

  function Write16(n: u16): (s: seq<u8>)
    ensures |s| == 2
  {
    [n / 256, n % 256]
  }

  function Write32(n: u32): (s: seq<u8>)
    ensures |s| == 4
  {
    Write16(n / 0x1_0000) + Write16(n % 0x1_0000)
  }

  lemma {:induction false} ReadWrite16(b: seq<u8>, i: nat, n: u16)
    requires i + 2 <= |b| && b[i..i + 2] == Write16(n)
    ensures Read16(b, i) == n
  {
    assert b[i] == b[i..i + 2][0] && b[i + 1] == b[i..i + 2][1];
  }

  lemma {:induction false} ReadWrite32(b: seq<u8>, i: nat, n: u32)
    requires i + 4 <= |b| && b[i..i + 4] == Write32(n)
    ensures Read32(b, i) == n
  {
    assert b[i..i + 2] == b[i..i + 4][..2] && b[i + 2..i + 4] == b[i..i + 4][2..];
    ReadWrite16(b, i, n / 0x1_0000);
    ReadWrite16(b, i + 2, n % 0x1_0000);
  }

  // ----- the Internet checksum (section 1 of RFC 1071)

  /** Sum of the 16-bit words; an odd last byte is the high half of a word. */
  function Sum16(b: seq<u8>): nat
  {
    if |b| == 0 then 0
    else if |b| == 1 then b[0] as int * 256
    else Read16(b, 0) + Sum16(b[2..])
  }

  /** Adds the carries back in until the sum fits 16 bits. */
  function Fold(s: nat): (r: u16)
    ensures r == 0 <==> s == 0
    ensures r % 65535 == s % 65535
  {
    if s < 0x1_0000 then s
    else
      FoldStep(s);
      Fold(s % 0x1_0000 + s / 0x1_0000)
  }

  lemma {:induction false} FoldStep(s: nat)
    requires s >= 0x1_0000
    ensures var t := s % 0x1_0000 + s / 0x1_0000; 0 < t < s && t % 65535 == s % 65535
  {
    var h, l := s / 0x1_0000, s % 0x1_0000;
    assert s == h * 65535 + (h + l);
    DivUnique(s, 65535, h + (h + l) / 65535, (h + l) % 65535);
  }

  /** `net_checksum`: the sum is kept in 32 bits and wraps. */
  function Checksum(b: seq<u8>, initial: nat): u16
  {
    65535 - Fold(Wrap32(initial + Sum16(b)))
  }

  /** The loops of `net_checksum`. */
  method ComputeChecksum(b: seq<u8>, initial: u32) returns (c: u16)
    ensures c == Checksum(b, initial)
  {
    var sum: u32, i := initial, 0;
    while |b| - i >= 2
      invariant 0 <= i <= |b|
      invariant Wrap32(sum + Sum16(b[i..])) == Wrap32(initial + Sum16(b))
    {
      assert b[i..][2..] == b[i + 2..] && Read16(b[i..], 0) == Read16(b, i);
      WrapMoved(sum, Read16(b, i), Sum16(b[i + 2..]));
      sum := Wrap32(sum + Read16(b, i));
      i := i + 2;
    }
    if i < |b| {
      assert |b[i..]| == 1;
      sum := Wrap32(sum + b[i] as int * 256);
    } else {
      assert b[i..] == [];
    }
    assert sum == Wrap32(initial + Sum16(b));
    while sum >= 0x1_0000
      invariant Fold(sum) == Fold(Wrap32(initial + Sum16(b)))
      decreases sum
    {
      FoldStep(sum);
      sum := sum % 0x1_0000 + sum / 0x1_0000;
    }
    c := 65535 - sum;
  }

  lemma {:induction false} WrapMoved(a: int, x: int, y: int)
    ensures Wrap32(Wrap32(a + x) + y) == Wrap32(a + (x + y))
  {
  }

  /** Words of the front and the back add up when the front has even length. */
  lemma {:induction false} SumConcat(a: seq<u8>, b: seq<u8>)
    requires |a| % 2 == 0
    ensures Sum16(a + b) == Sum16(a) + Sum16(b)
  {
    if |a| == 0 {
      assert a + b == b;
    } else {
      SumConcat(a[2..], b);
      assert (a + b)[2..] == a[2..] + b;
    }
  }

  /** `b` with the 16-bit value `c` at offset `o`. */
  function Insert(b: seq<u8>, o: nat, c: u16): (r: seq<u8>)
    ensures |r| == |b|
  {
    Paste(b, o, Write16(c))
  }

  lemma {:induction false} SumInsert(b: seq<u8>, o: nat, c: u16)
    requires o % 2 == 0 && o + 2 <= |b| && b[o] == 0 && b[o + 1] == 0
    ensures Sum16(Insert(b, o, c)) == Sum16(b) + c
  {
    var front, back := b[..o], b[o + 2..];
    assert b == front + ([0, 0] + back);
    assert Insert(b, o, c) == front + (Write16(c) + back);
    SumConcat(front, [0, 0] + back);
    SumConcat(front, Write16(c) + back);
    assert ([0, 0] + back)[2..] == back;
    assert (Write16(c) + back)[2..] == back;
  }

  /** A checksum of zero means that the sum, kept in 32 bits, is a positive multiple of 65535. */
  lemma {:induction false} ChecksumZero(b: seq<u8>, initial: nat)
    ensures var s := Wrap32(initial + Sum16(b)); Checksum(b, initial) == 0 <==> s > 0 && s % 65535 == 0
  {
    FoldZero(Wrap32(initial + Sum16(b)));
  }

  lemma {:induction false} FoldZero(s: nat)
    ensures Fold(s) == 65535 <==> s > 0 && s % 65535 == 0
  {
    var f := Fold(s);
    assert f % 65535 == if f == 65535 then 0 else f;
  }

  /** Inserting the checksum at an even offset makes the check come out zero, for every buffer, even
      or odd, and even where the 32-bit sum wraps: the checksum completes the kept sum to the next
      multiple of 65535, and 2^32 - 1 is itself one, so that completing it never wraps. */
  lemma {:induction false} ChecksumVerifies(b: seq<u8>, o: nat, initial: nat)
    requires o % 2 == 0 && o + 2 <= |b| && b[o] == 0 && b[o + 1] == 0
    ensures Checksum(Insert(b, o, Checksum(b, initial)), initial) == 0
  {
    var s, c := Wrap32(initial + Sum16(b)), Checksum(b, initial);
    SumInsert(b, o, c);
    Complement(s, Fold(s));
    NeverWraps(s, Fold(s));
    WrapPlus(initial + Sum16(b), c);
    ChecksumZero(Insert(b, o, c), initial);
  }

  lemma {:induction false} WrapPlus(total: nat, c: nat)
    requires Wrap32(total) + c < 0x1_0000_0000
    ensures Wrap32(total + c) == Wrap32(total) + c
  {
    DivUnique(total + c, 0x1_0000_0000, total / 0x1_0000_0000, Wrap32(total) + c);
  }

  lemma {:induction false} NeverWraps(s: u32, f: nat)
    requires f <= 65535 && f % 65535 == s % 65535 && (f == 0 <==> s == 0)
    ensures s + (65535 - f) < 0x1_0000_0000
  {
    var q, r := s / 65535, s % 65535;
    assert s == q * 65535 + r;
    assert 65537 * 65535 == 0x1_0000_0000 - 1;
    assert q <= 65537;
    assert q == 65537 ==> r == 0;
    assert f == 65535 || f == r;
  }

  lemma {:induction false} Complement(s: nat, f: nat)
    requires f <= 65535 && f % 65535 == s % 65535 && (f == 0 <==> s == 0)
    ensures s + (65535 - f) > 0 && (s + (65535 - f)) % 65535 == 0
  {
    var q, r := s / 65535, s % 65535;
    assert s == q * 65535 + r;
    if f == 65535 {
      DivUnique(s, 65535, q, 0);
    } else {
      assert f == r;
      DivUnique(s + (65535 - f), 65535, q + 1, 0);
    }
  }

  // ----- the decoder

  datatype Header = Header(
    source: u32, destination: u32, sourcePort: u16, destinationPort: u16, length: u16, protocol: u8)

  function Pseudo(ip: seq<u8>, protocol: nat, size: nat): nat
    requires |ip| >= 20
  {
    Read16(ip, 12) as int + Read16(ip, 14) as int + Read16(ip, 16) as int + Read16(ip, 18) as int + protocol + size
  }

  /** `net_decode`: IPv4 without options or fragments, known transports, checksums verified. */
  function Decode(ip: seq<u8>): Option<Header>
  {
    if |ip| < 20 || |ip| > 1500 || ip[0] != 0x45 || ip[8] == 0 || And(Read16(ip, 6), 0xbfff) != 0 ||
       Checksum(ip[..20], 0) != 0 then None
    else
      var length := Read16(ip, 2);
      if length < 20 || length > |ip| then None
      else
        var body := ip[20..length];
        var protocol := ip[9];
        var pseudo := Pseudo(ip, protocol, |body|);
        if protocol == ICMP then
          if |body| < 8 || Checksum(body, 0) != 0 then None
          else Some(Header(Read32(ip, 12), Read32(ip, 16), 0, 0, length, protocol))
        else if protocol == UDP then
          if |body| < 8 || Read16(body, 4) != |body| ||
             (Read16(body, 6) != 0 && Checksum(body, pseudo) != 0) then None
          else Some(Header(Read32(ip, 12), Read32(ip, 16), Read16(body, 0), Read16(body, 2), length, protocol))
        else if protocol == TCP then
          if |body| < 20 || body[12] / 16 < 5 || body[12] / 16 * 4 > |body| || Checksum(body, pseudo) != 0 then None
          else Some(Header(Read32(ip, 12), Read32(ip, 16), Read16(body, 0), Read16(body, 2), length, protocol))
        else None
  }

  // ----- send_to

  /** The IPv4 header before its checksum is filled in. */
  function IpHeader(destination: u32, size: nat): (h: seq<u8>)
    requires size <= 1480
    ensures |h| == 20
  {
    [0x45, 0] + Write16(20 + size) + [0, 0, 0, 0, 64, TCP, 0, 0] + Write32(NET_IP) + Write32(destination)
  }

  /** The datagram `send_to` hands to the link: header and body, each with its checksum inserted. */
  function Datagram(destination: u32, body: seq<u8>): (d: seq<u8>)
    requires |body| <= 1480
  {
    var h := IpHeader(destination, |body|);
    Insert(h, 10, Checksum(h, 0)) + Insert(body, 16, Checksum(body, Pseudo(h, TCP, |body|)))
  }

  lemma {:induction false} IpHeaderFields(destination: u32, size: nat)
    requires size <= 1480
    ensures var h := IpHeader(destination, size);
      && h[0] == 0x45 && h[8] == 64 && h[9] == TCP && h[10] == 0 && h[11] == 0
      && Read16(h, 2) == 20 + size && Read16(h, 6) == 0
      && Read32(h, 12) == NET_IP && Read32(h, 16) == destination
  {
    var h := IpHeader(destination, size);
    assert h[2..4] == Write16(20 + size) && h[12..16] == Write32(NET_IP) && h[16..20] == Write32(destination);
    ReadWrite16(h, 2, 20 + size);
    ReadWrite32(h, 12, NET_IP);
    ReadWrite32(h, 16, destination);
  }

  /** Filling in the header checksum leaves every other field alone. */
  lemma {:induction false} HeaderFilled(destination: u32, body: seq<u8>)
    requires |body| <= 1480
    ensures var h, d := IpHeader(destination, |body|), Datagram(destination, body);
      && |d| == 20 + |body| && d[..20] == Insert(h, 10, Checksum(h, 0))
      && (forall i :: 0 <= i < 20 && i != 10 && i != 11 ==> d[i] == h[i])
      && d[20..] == Insert(body, 16, Checksum(body, Pseudo(h, TCP, |body|)))
  {
  }

  lemma {:induction false} HeaderVerifies(destination: u32, size: nat)
    requires size <= 1480
    ensures var h := IpHeader(destination, size); Checksum(Insert(h, 10, Checksum(h, 0)), 0) == 0
  {
    var h := IpHeader(destination, size);
    IpHeaderFields(destination, size);
    ChecksumVerifies(h, 10, 0);
  }

  lemma {:induction false} BodyVerifies(h: seq<u8>, body: seq<u8>)
    requires |h| >= 20 && 20 <= |body| <= 1480 && body[16] == 0 && body[17] == 0
    ensures var pseudo := Pseudo(h, TCP, |body|); Checksum(Insert(body, 16, Checksum(body, pseudo)), pseudo) == 0
  {
    ChecksumVerifies(body, 16, Pseudo(h, TCP, |body|));
  }

  /** Every TCP segment with a well-formed data offset and a zero checksum field, once wrapped by
      `send_to`, is accepted by the decoder with the same addresses, ports, protocol and length. */
  lemma {:induction false} SendDecodes(destination: u32, body: seq<u8>)
    requires 20 <= |body| <= 1480 && body[16] == 0 && body[17] == 0
    requires 5 <= body[12] / 16 && body[12] / 16 * 4 <= |body|
    ensures Decode(Datagram(destination, body)) ==
      Some(Header(NET_IP, destination, Read16(body, 0), Read16(body, 2), 20 + |body|, TCP))
  {
    var d, h := Datagram(destination, body), IpHeader(destination, |body|);
    IpHeaderFields(destination, |body|);
    HeaderFilled(destination, body);
    HeaderVerifies(destination, |body|);
    BodyVerifies(h, body);
    assert Read16(d, 2) == Read16(h, 2) && Read16(d, 6) == 0;
    assert And(0, 0xbfff) == 0;
    assert Read32(d, 12) == Read32(h, 12) && Read32(d, 16) == Read32(h, 16);
    var b := d[20..];
    assert d[20..20 + |body|] == b;
    assert Pseudo(d, TCP, |body|) == Pseudo(h, TCP, |body|);
    assert forall i :: 0 <= i < 16 ==> b[i] == body[i];
  }
}
