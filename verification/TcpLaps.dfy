/** How long a stream the receiver can take: its sequence numbers repeat after 2^32 bytes, and a stream
    that goes round has a segment which is stored as if it were from the first lap. */
module TcpLaps {
  import opened Words
  import opened TcpModel
  import opened TcpScenario
  import opened TcpReceiver

  const LAP := 0x1_0000_0000

  /** All zeroes but for the first byte of the second lap. */
  function Marked(n: nat): (s: seq<u8>)
    ensures |s| == n && (n > 0 ==> s[0] == 0) && (n > LAP ==> s[LAP] == 1)
  {
    seq(n, i => if i == LAP then 1 else 0)
  }

  /** The first byte of the second lap, or the FIN of a stream that is exactly one lap long. */
  function SecondLap(n: nat): Incoming
  {
    Incoming(2, 1, 1, 1, if n == LAP then 17 else 16, 0, [], if n == LAP then [] else [1])
  }

  lemma {:induction false} FromSecondLap(n: nat)
    requires n >= LAP
    ensures At(SecondLap(n), 0, Marked(n), LAP)
  {
    assert n > LAP ==> Marked(n)[LAP..LAP + 1] == [1];
  }

  /** A quiet connection takes it for the start of the stream. */
  lemma {:induction false} Taken(r: Tcp, n: nat, env: Env)
    requires Quiet(r, [], 0, 0, 0) && n >= LAP
    ensures Step(r, Input(SecondLap(n), env)).rcv == Store(r.rcv, SecondLap(n))
    ensures !Stored(Store(r.rcv, SecondLap(n)), Marked(n))
  {
    var g := SecondLap(n);
    Fits(r.rcv, n);
    assert Step(r, Input(g, env)) == Process(r, g, env);
    Delivered(r, g, env);
  }

  lemma {:induction false} Fits(r: Receiver, n: nat)
    requires r == Receiver(1, [], false) && n >= LAP
    ensures Acceptable(r, SecondLap(n)) && InOrder(r, SecondLap(n)) && Trim(r, SecondLap(n)) == 0
    ensures !Stored(Store(r, SecondLap(n)), Marked(n))
  {
    var g := SecondLap(n);
    assert Store(r, g).data == g.payload;
    assert n > LAP ==> g.payload[0] == 1;
  }

  /** An in-order segment that acknowledges nothing new goes straight to the receiver. */
  lemma {:induction false} Delivered(r: Tcp, g: Incoming, env: Env)
    requires g.acknowledgement == r.snd.una == r.snd.next && InOrder(r.rcv, g)
    requires |g.payload| > 0 || Fin(g.flags)
    requires |g.payload| - Trim(r.rcv, g) <= TCP_BUFFER - |r.rcv.data|
    ensures Process(r, g, env).rcv == Store(r.rcv, g)
  {
    assert Process(r, g, env) == Receive(r.(ctl := UpdateWindow(r.ctl, g)), g);
  }

  /** For every length from one lap on: a run all of whose arrivals come from one peer stream of that
      length, after which the stored bytes are not a prefix of it, or not all of it after its FIN. */
  lemma {:induction false} LongStreamsUnsafe(n: nat) returns (c: Tcp, events: seq<Event>, irs: u32, stream: seq<u8>)
    requires n >= LAP
    ensures Initial(c) && |stream| == n && PeerEvents(c, events, irs, stream)
    ensures !Stored(Run(c, events).rcv, stream)
  {
    irs, stream := 0, Marked(n);
    c, events := Opened([], 0, 0);
    var e := Input(SecondLap(n), Clocked(3));
    OneStream(c, events, n, e);
    Taken(Run(c, events), n, Clocked(3));
    events := Then(c, events, e);
  }

  lemma {:induction false} OneStream(c: Tcp, events: seq<Event>, n: nat, e: Event)
    requires n >= LAP && e.Input? && e.segment == SecondLap(n)
    requires forall i :: 0 <= i < |events| && events[i].Input? ==> events[i].segment == Reply(0, 1, SYN_ACK, 0)
    ensures PeerEvents(c, events + [e], 0, Marked(n))
  {
    FromSecondLap(n);
    var stream := Marked(n);
    assert FromPeer(SecondLap(n), 0, stream) && FromPeer(Reply(0, 1, SYN_ACK, 0), 0, stream);
  }

  /** No run whose arrivals come from one stream of this length stores anything but its prefix. */
  ghost predicate SafeLength(n: nat)
  {
    forall c: Tcp, events: seq<Event>, irs: u32, stream: seq<u8> ::
      Initial(c) && |stream| == n && PeerEvents(c, events, irs, stream) ==> Stored(Run(c, events).rcv, stream)
  }

  /** The receiver is safe exactly for streams shorter than the sequence space. */
  lemma {:induction false} SafeExactly(n: nat)
    ensures SafeLength(n) <==> n < LAP
  {
    if n < LAP {
      forall c: Tcp, events: seq<Event>, irs: u32, stream: seq<u8>
        | Initial(c) && |stream| == n && PeerEvents(c, events, irs, stream)
        ensures Stored(Run(c, events).rcv, stream)
      {
        Reception(c, events, irs, stream);
      }
    } else {
      var c, events, irs, stream := LongStreamsUnsafe(n);
    }
  }
}
