/** Byte buffers: little-endian numbers and runs of bytes cut out of or pasted into a buffer. */
module Buffers {
  import opened Words
  import opened Bits

  /** Little-endian value of a run of bytes. */
  function Le(s: seq<u8>): nat
  {
    if s == [] then 0 else s[0] + 256 * Le(s[1..])
  }

  /** The low `n` bytes of a value, little-endian. */
  function Bytes(value: nat, n: nat): (s: seq<u8>)
    ensures |s| == n
  {
    if n == 0 then [] else [value % 256] + Bytes(value / 256, n - 1)
  }

  lemma {:induction false} LeBytes(value: nat, n: nat)
    ensures Le(Bytes(value, n)) == value % Pow2(8 * n)
    decreases n
  {
    if n == 0 {
      assert value % 1 == 0;
    } else {
      LeBytes(value / 256, n - 1);
      assert Bytes(value, n)[1..] == Bytes(value / 256, n - 1);
      Pow2Add(8, 8 * (n - 1));
      assert Pow2(8) == 256;
      ModSplit(value, Pow2(8 * (n - 1)));
    }
  }

  lemma {:induction false} ModSplit(v: nat, p: nat)
    requires p > 0
    ensures v % (256 * p) == v % 256 + 256 * (v / 256 % p)
  {
    var h, l := v / 256, v % 256;
    var q, r := h / p, h % p;
    assert h == q * p + r;
    assert v == q * (256 * p) + (l + 256 * r) by {
      assert v == 256 * h + l;
      assert 256 * (q * p) == q * (256 * p);
    }
    DivUnique(v, 256 * p, q, l + 256 * r);
  }

  /** Bytes `at .. at + size` of a buffer. */
  function Cut(s: seq<u8>, at: nat, size: nat): seq<u8>
  {
    if at + size <= |s| then s[at..at + size] else []
  }

  function Paste(s: seq<u8>, at: nat, text: seq<u8>): (r: seq<u8>)
    ensures |r| == |s|
  {
    if at + |text| <= |s| then s[..at] + text + s[at + |text|..] else s
  }

  lemma {:induction false} CutPaste(s: seq<u8>, at: nat, text: seq<u8>)
    requires at + |text| <= |s|
    ensures Cut(Paste(s, at, text), at, |text|) == text
    ensures forall k :: 0 <= k < |s| && !(at <= k < at + |text|) ==> Paste(s, at, text)[k] == s[k]
  {
  }

  /** A number of at most `n` bytes survives being written and read back. */
  lemma {:induction false} LeExact(value: nat, n: nat)
    requires value < Pow2(8 * n)
    ensures Le(Bytes(value, n)) == value
  {
    LeBytes(value, n);
    DivUnique(value, Pow2(8 * n), 0, value);
  }
}
