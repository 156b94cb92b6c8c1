/** Numbers and CIDR blocks as text: the parsers of jordyOS/net/packet.c and the printers of
    jordyOS/net/command.c.  A C string is a sequence of characters without NUL. */
module Cidr {
  import opened Words
  import opened Bits

  // ----- decimal numbers

  predicate IsDigit(c: char) { '0' <= c <= '9' }

  predicate AllDigits(s: seq<char>) { forall i :: 0 <= i < |s| ==> IsDigit(s[i]) }

  function DigitValue(c: char): nat
    requires IsDigit(c)
  {
    c as int - '0' as int
  }

  function Value(s: seq<char>): nat
    requires AllDigits(s)
  {
    if s == [] then 0 else Value(s[..|s| - 1]) * 10 + DigitValue(s[|s| - 1])
  }

  lemma {:induction false} ValuePrefix(s: seq<char>, i: nat)
    requires AllDigits(s) && i <= |s|
    ensures AllDigits(s[..i]) && Value(s[..i]) <= Value(s)
    decreases |s|
  {
    if i == |s| {
      assert s[..i] == s;
    } else {
      ValuePrefix(s[..|s| - 1], i);
      assert s[..|s| - 1][..i] == s[..i];
    }
  }

  /** The number a text denotes, if it is a non-empty digit string of value at most `maximum`. */
  function Number(s: seq<char>, maximum: nat): (r: Option<nat>)
    ensures r.Some? ==> r.value <= maximum
  {
    if s != [] && AllDigits(s) && Value(s) <= maximum then Some(Value(s)) else None
  }

  /** `net_number`: rejects before the 32-bit accumulator can pass `maximum`. */
  method ParseNumber(s: seq<char>, maximum: u32) returns (r: Option<nat>)
    ensures r == Number(s, maximum)
  {
    if |s| == 0 { return None; }
    var n: u32 := 0;
    for i := 0 to |s|
      invariant AllDigits(s[..i]) && n == Value(s[..i]) && n <= maximum
    {
      if !IsDigit(s[i]) { return None; }
      var digit := DigitValue(s[i]);
      assert s[..i + 1][..i] == s[..i];
      if AllDigits(s) { ValuePrefix(s, i + 1); }
      if digit > maximum || n > (maximum - digit) / 10 { return None; }
      n := n * 10 + digit;
    }
    assert s[..|s|] == s;
    r := Some(n);
  }

  function DigitChar(d: nat): char
    requires d < 10
  {
    '0' + d as char
  }

  /** Decimal text of a number. */
  function Digits(n: nat): (s: seq<char>)
    ensures s != [] && AllDigits(s) && Value(s) == n
  {
    if n < 10 then [DigitChar(n)]
    else
      var s := Digits(n / 10);
      assert (s + [DigitChar(n % 10)])[..|s|] == s;
      s + [DigitChar(n % 10)]
  }

  lemma {:induction false} DigitsLength(n: nat, k: nat)
    requires 1 <= k && n < Pow10(k)
    ensures |Digits(n)| <= k
    decreases k
  {
    if n >= 10 { DigitsLength(n / 10, k - 1); }
  }

  function Pow10(k: nat): nat { if k == 0 then 1 else 10 * Pow10(k - 1) }

  /** The digits still to come when `n` is left. */
  function Front(n: nat): seq<char> { if n == 0 then [] else Digits(n) }

  lemma {:induction false} LastDigit(n: nat, tail: seq<char>)
    ensures Digits(n) + tail == Front(n / 10) + ([DigitChar(n % 10)] + tail)
  {
    assert Digits(n) == Front(n / 10) + [DigitChar(n % 10)];
  }

  /** The buffer at the end of the loop, given what is left and what is filled. */
  function Emit(n: nat, tail: seq<char>): seq<char>
  {
    if n == 0 then tail else Emit(n / 10, [DigitChar(n % 10)] + tail)
  }

  lemma {:induction false} EmitDigits(n: nat, tail: seq<char>)
    ensures Emit(n, tail) == Front(n) + tail
    decreases n
  {
    if n > 0 {
      EmitDigits(n / 10, [DigitChar(n % 10)] + tail);
      LastDigit(n, tail);
    }
  }

  lemma {:induction false} TenStep(n: nat, i: nat)
    requires 0 < n < Pow10(i)
    ensures i > 0 && n / 10 < Pow10(i - 1)
  {
  }

  lemma {:induction false} TenDigits(n: u32)
    ensures n / 10 < Pow10(9)
  {
    assert Pow10(4) == 10_000;
    assert Pow10(9) == 10 * Pow10(8) && Pow10(8) == 10 * Pow10(7);
    assert Pow10(7) == 10 * Pow10(6) && Pow10(6) == 10 * Pow10(5);
  }

  /** `net_print_number`: the digit buffer filled from its end. */
  method PrintNumber(n: u32) returns (text: seq<char>)
    ensures text == Digits(n)
  {
    var buffer := new char[11];
    var digit := DigitChar(n % 10);
    buffer[9] := digit;
    var i: nat, rest := 9, n / 10;
    ghost var tail, all := [digit], Emit(n / 10, [digit]);
    TenDigits(n);
    while rest != 0
      invariant i <= 9 && 0 <= rest < Pow10(i)
      invariant buffer[i..10] == tail && Emit(rest, tail) == all
      decreases i
    {
      TenStep(rest, i);
      digit := DigitChar(rest % 10);
      i, tail := i - 1, [digit] + tail;
      buffer[i] := digit;
      assert buffer[i..10] == [digit] + buffer[i + 1..10];
      rest := rest / 10;
    }
    text := buffer[i..10];
    EmitAll(n);
  }

  lemma {:induction false} EmitAll(n: nat)
    ensures Emit(n / 10, [DigitChar(n % 10)]) == Digits(n)
  {
    EmitDigits(n / 10, [DigitChar(n % 10)]);
    LastDigit(n, []);
  }

  // ----- prefix masks

  /** `prefix ? 0xffffffff << (32 - prefix) : 0`. */
  function Mask(prefix: nat): u32
    requires prefix <= 32
  {
    MaskRange(prefix);
    0x1_0000_0000 - Pow2(32 - prefix)
  }

  lemma {:induction false} MaskRange(prefix: nat)
    requires prefix <= 32
    ensures 0 < Pow2(32 - prefix) <= 0x1_0000_0000
    ensures prefix == 0 <==> Pow2(32 - prefix) == 0x1_0000_0000
  {
    Pow2Values();
    Pow2Monotone(32 - prefix, 32);
    if prefix > 0 {
      Pow2Monotone(32 - prefix, 31);
      assert Pow2(32) == 2 * Pow2(31);
    }
  }

  /** The loop that shifts a mask left until nothing is left, having done `n` turns. */
  function ShiftCount(mask: u32, n: nat): (r: nat)
    requires n <= 32 && mask % Pow2(n) == 0
    ensures r <= 32
    decreases 32 - n
  {
    ShiftOut(mask, n);
    if mask == 0 then n else ShiftCount(Wrap32(2 * mask), n + 1)
  }

  lemma {:induction false} ShiftOut(mask: u32, n: nat)
    requires n <= 32 && mask % Pow2(n) == 0
    ensures n == 32 ==> mask == 0
    ensures n < 32 ==> Wrap32(2 * mask) % Pow2(n + 1) == 0
  {
    if n < 32 {
      Halves(n);
      Doubled(mask, Pow2(n), Pow2(31 - n));
    } else {
      Pow2Values();
      DivUnique(mask, 0x1_0000_0000, 0, mask);
    }
  }

  lemma {:induction false} Halves(n: nat)
    requires n < 32
    ensures Pow2(31 - n) * (2 * Pow2(n)) == 0x1_0000_0000
  {
    Pow2Values();
    Pow2Add(31 - n, n + 1);
  }

  lemma {:induction false} Doubled(mask: u32, p: nat, r: nat)
    requires p > 0 && mask % p == 0 && r * (2 * p) == 0x1_0000_0000
    ensures Wrap32(2 * mask) % (2 * p) == 0
  {
    var q := mask / p;
    TwiceProduct(q, p);
    DivUnique(2 * mask, 2 * p, q, 0);
    DivUnique(2 * mask - 0x1_0000_0000, 2 * p, q - r, 0) by {
      assert (q - r) * (2 * p) == q * (2 * p) - r * (2 * p);
    }
  }

  /** The number of leading one bits the printer and the rule table count. */
  function PrefixLength(mask: u32): (r: nat)
    ensures r <= 32
  {
    assert Pow2(0) == 1 && mask % 1 == 0;
    ShiftCount(mask, 0)
  }

  /** Counting the bits of a prefix mask gives the prefix back. */
  lemma {:induction false} MaskShift(prefix: nat, n: nat)
    requires prefix + n <= 32 && Mask(prefix) % Pow2(n) == 0
    ensures ShiftCount(Mask(prefix), n) == prefix + n
    decreases prefix
  {
    MaskRange(prefix);
    if prefix > 0 {
      ShiftOut(Mask(prefix), n);
      MaskRange(prefix - 1);
      assert Pow2(32 - (prefix - 1)) == 2 * Pow2(32 - prefix);
      assert Wrap32(2 * Mask(prefix)) == Mask(prefix - 1);
      MaskShift(prefix - 1, n + 1);
    }
  }

  lemma {:induction false} PrefixLengthMask(prefix: nat)
    requires prefix <= 32
    ensures PrefixLength(Mask(prefix)) == prefix
  {
    assert Mask(prefix) % 1 == 0;
    MaskShift(prefix, 0);
  }

  /** What the count means: bit `32 - d` of the mask is one and all below it are zero. */
  lemma {:induction false} LowestOne(mask: u32, n: nat)
    requires n <= 32 && mask % Pow2(n) == 0 && mask != 0
    ensures var d := ShiftCount(mask, n) - n;
      1 <= d <= 32 - n && mask % Pow2(32 - d) == 0 && Bit(mask, 32 - d) == 1
    decreases 32 - n
  {
    ShiftOut(mask, n);
    var next := Wrap32(2 * mask);
    assert ShiftCount(mask, n) == ShiftCount(next, n + 1);
    if next == 0 {
      assert mask == 0x8000_0000;
      Pow2Values();
      TopBitOnly();
    } else {
      LowestOne(next, n + 1);
      var d := ShiftCount(mask, n) - n;
      LiftBit(mask, d);
    }
  }

  lemma {:induction false} TopBitOnly()
    ensures Pow2(31) == 0x8000_0000 && Bit(0x8000_0000, 31) == 1 && 0x8000_0000 % Pow2(31) == 0
  {
    Pow2Values();
    assert Pow2(32) == 2 * Pow2(31);
  }

  lemma {:induction false} LiftBit(mask: u32, d: nat)
    requires 2 <= d <= 32
    requires Wrap32(2 * mask) % Pow2(33 - d) == 0 && Bit(Wrap32(2 * mask), 33 - d) == 1
    ensures mask % Pow2(32 - d) == 0 && Bit(mask, 32 - d) == 1
  {
    Pow2Values();
    Pow2Add(d - 1, 33 - d);
    assert Pow2(33 - d) == 2 * Pow2(32 - d) && Pow2(d - 1) == 2 * Pow2(d - 2);
    Unshift(mask, Pow2(32 - d), Pow2(d - 2));
  }

  lemma {:induction false} Unshift(mask: u32, p: nat, r: nat)
    requires p > 0 && 2 * r * (2 * p) == 0x1_0000_0000 && Wrap32(2 * mask) % (2 * p) == 0
    ensures mask % p == 0 && mask / p % 2 == Wrap32(2 * mask) / (2 * p) % 2
  {
    var c := if 2 * mask >= 0x1_0000_0000 then 1 else 0;
    var w := 2 * mask - c * 0x1_0000_0000;
    var q := w / (2 * p);
    var k := q + 2 * (c * r);
    Multiples(mask, p, r, c, q);
    DivUnique(mask, p, k, 0);
    EvenPlus(c * r, q);
  }

  lemma {:induction false} Multiples(mask: int, p: int, r: int, c: int, q: int)
    requires 2 * r * (2 * p) == 0x1_0000_0000 && 2 * mask - c * 0x1_0000_0000 == q * (2 * p)
    ensures mask == (q + 2 * (c * r)) * p
  {
    assert c * (2 * r * (2 * p)) == 2 * (c * r) * (2 * p);
    assert (q + 2 * (c * r)) * (2 * p) == q * (2 * p) + 2 * (c * r) * (2 * p);
    TwiceProduct(q + 2 * (c * r), p);
  }

  lemma {:induction false} EvenPlus(y: int, z: int)
    ensures (z + 2 * y) % 2 == z % 2
  {
  }

  /** The count reaches from the top of the mask down to its lowest one, and is zero for no bits. */
  lemma {:induction false} PrefixLengthMeans(mask: u32)
    ensures mask == 0 <==> PrefixLength(mask) == 0
    ensures mask != 0 ==> Bit(mask, 32 - PrefixLength(mask)) == 1 && mask % Pow2(32 - PrefixLength(mask)) == 0
  {
    assert Pow2(0) == 1 && mask % 1 == 0;
    if mask != 0 { LowestOne(mask, 0); }
  }

  /** `bits` of the rule table and the loop of `cidr`: the number of bits from the top of the mask down
      to its lowest one. */
  method CountBits(mask: u32) returns (n: nat)
    ensures n == PrefixLength(mask)
  {
    var m: u32 := mask;
    n := 0;
    assert m % 1 == 0;
    while m != 0
      invariant n <= 32 && m % Pow2(n) == 0 && ShiftCount(m, n) == PrefixLength(mask)
      decreases 32 - n
    {
      ShiftOut(m, n);
      m := Wrap32(2 * m);
      n := n + 1;
    }
  }

  /** A mask has no bits below the prefix counted for it. */
  lemma {:induction false} NoLowBits(mask: u32)
    ensures mask % Pow2(32 - PrefixLength(mask)) == 0
  {
    PrefixLengthMeans(mask);
  }

  /** `m` ones above `k` zeroes. */
  function Ones(m: nat, k: nat): nat
  {
    if k == 0 then Pow2(m) - 1 else 2 * Ones(m, k - 1)
  }

  lemma {:induction false} OnesValue(m: nat, k: nat)
    ensures Ones(m, k) == Pow2(m + k) - Pow2(k)
    decreases k
  {
    if k > 0 { OnesValue(m, k - 1); }
  }

  /** Masking with ones above `k` zeroes clears the low `k` bits. */
  lemma {:induction false} AndHigh(x: nat, m: nat, k: nat)
    requires x < Pow2(m + k)
    ensures And(x, Ones(m, k)) == x / Pow2(k) * Pow2(k)
    decreases k
  {
    if k == 0 {
      AndLow(x, m);
      DivUnique(x, Pow2(m), 0, x);
      assert x / 1 * 1 == x;
    } else {
      AndHigh(x / 2, m, k - 1);
      AndEven(x, Ones(m, k - 1));
      ClearMore(x, Pow2(k - 1));
    }
  }

  lemma {:induction false} ClearMore(x: nat, a: nat)
    requires a > 0
    ensures 2 * (x / 2 / a * a) == x / (2 * a) * (2 * a)
  {
    HalfDivide(x, a);
    TwiceProduct(x / (2 * a), a);
  }

  /** `ip & mask` for a prefix mask. */
  lemma {:induction false} MaskedAddress(ip: u32, prefix: nat)
    requires prefix <= 32
    ensures And(ip, Mask(prefix)) == ip / Pow2(32 - prefix) * Pow2(32 - prefix) <= ip
  {
    OnesAre(prefix);
    AndHigh(ip, prefix, 32 - prefix);
    DivideDown(ip, Pow2(32 - prefix));
  }

  lemma {:induction false} OnesAre(prefix: nat)
    requires prefix <= 32
    ensures Ones(prefix, 32 - prefix) == Mask(prefix)
    ensures Pow2(prefix + (32 - prefix)) == 0x1_0000_0000
  {
    Pow2Values();
    OnesValue(prefix, 32 - prefix);
  }

  /** Masking twice is masking once. */
  lemma {:induction false} MaskTwice(ip: u32, prefix: nat)
    requires prefix <= 32
    ensures And(ip, Mask(prefix)) <= ip
    ensures And(And(ip, Mask(prefix)), Mask(prefix)) == And(ip, Mask(prefix))
  {
    MaskedAddress(ip, prefix);
    MaskedAddress(And(ip, Mask(prefix)), prefix);
    DivUnique(And(ip, Mask(prefix)), Pow2(32 - prefix), ip / Pow2(32 - prefix), 0);
  }

  lemma {:induction false} MaskInside(mask: u32)
    ensures And(mask, Mask(PrefixLength(mask))) == mask
  {
    NoLowBits(mask);
    var p := PrefixLength(mask);
    MaskedAddress(mask, p);
    Whole(mask, Pow2(32 - p));
  }

  /** Two addresses agree under a prefix mask exactly when they agree above its zeroes. */
  lemma {:induction false} SameMasked(a: u32, b: u32, prefix: nat)
    requires prefix <= 32
    ensures And(a, Mask(prefix)) == And(b, Mask(prefix)) <==> a / Pow2(32 - prefix) == b / Pow2(32 - prefix)
  {
    var p := Pow2(32 - prefix);
    MaskedAddress(a, prefix);
    MaskedAddress(b, prefix);
    DivUnique(a / p * p, p, a / p, 0);
    DivUnique(b / p * p, p, b / p, 0);
  }

  // ----- CIDR text

  datatype Block = Block(address: u32, mask: u32)

  function DigitRun(s: seq<char>): (n: nat)
    ensures n <= |s| && AllDigits(s[..n])
    ensures n < |s| ==> !IsDigit(s[n])
  {
    if s == [] || !IsDigit(s[0]) then 0
    else
      var n := DigitRun(s[1..]);
      assert s[..n + 1] == [s[0]] + s[1..][..n];
      n + 1
  }

  lemma {:induction false} DigitRunOf(t: seq<char>, rest: seq<char>)
    requires AllDigits(t) && (rest == [] || !IsDigit(rest[0]))
    ensures DigitRun(t + rest) == |t|
  {
    if t == [] {
      assert t + rest == rest;
    } else {
      DigitRunOf(t[1..], rest);
      assert (t + rest)[1..] == t[1..] + rest;
    }
  }

  /** An address with one more octet behind it, in 32 bits. */
  function Push(ip: u32, value: u8): u32 { ip % 0x100_0000 * 256 + value }

  /** `ip << 8 | value` in 32 bits. */
  lemma {:induction false} PushBits(ip: u32, value: u8)
    ensures Or(Wrap32(ip * 256), value) == Push(ip, value)
  {
    assert Pow2(8) == 256;
    assert Wrap32(ip * 256) == ip % 0x100_0000 * 256;
    OrBelow(ip % 0x100_0000, value, 8);
  }

  datatype Scan = Scan(ip: u32, rest: seq<char>)

  /** One turn of the octet loop of `net_cidr`. */
  function Turn(s: seq<char>, octet: nat, ip: u32): Option<Scan>
  {
    var n := DigitRun(s);
    if n > 3 then None
    else
      var value := Number(s[..n], 255);
      if value.None? then None
      else if octet >= 3 then Some(Scan(Push(ip, value.value), s[n..]))
      else if n < |s| && s[n] == '.' then Some(Scan(Push(ip, value.value), s[n + 1..]))
      else None
  }

  /** The loop from its turn `octet` on: the address and what is left of the text. */
  function Octets(s: seq<char>, octet: nat, ip: u32): Option<Scan>
    requires octet <= 4
    decreases 4 - octet
  {
    if octet == 4 then Some(Scan(ip, s))
    else
      var t := Turn(s, octet, ip);
      if t.None? then None else Octets(t.value.rest, octet + 1, t.value.ip)
  }

  function Prefix(s: seq<char>): (r: Option<nat>)
    ensures r.Some? ==> r.value <= 32
  {
    if s == [] then Some(32) else if s[0] == '/' then Number(s[1..], 32) else None
  }

  function Masked(ip: u32, prefix: nat): Block
    requires prefix <= 32
  {
    MaskedAddress(ip, prefix);
    Block(And(ip, Mask(prefix)), Mask(prefix))
  }

  function Parse(s: seq<char>): Option<Block>
  {
    var r := Octets(s, 0, 0);
    if r.None? then None
    else
      var prefix := Prefix(r.value.rest);
      if prefix.None? then None else Some(Masked(r.value.ip, prefix.value))
  }

  /** The end of the digits from `start`, unless there are more than three. */
  method Part(text: seq<char>, start: nat) returns (stop: Option<nat>)
    requires start <= |text|
    ensures stop == if DigitRun(text[start..]) > 3 then None else Some(start + DigitRun(text[start..]))
  {
    ghost var rest := text[start..];
    var n: nat := 0;
    assert forall k :: 0 <= k < DigitRun(rest) ==> IsDigit(rest[k]) by {
      forall k | 0 <= k < DigitRun(rest) ensures IsDigit(rest[k]) {
        assert rest[..DigitRun(rest)][k] == rest[k];
      }
    }
    while start + n < |text| && IsDigit(text[start + n])
      invariant n <= DigitRun(rest) && n <= 3
      decreases |text| - n
    {
      assert rest[n] == text[start + n];
      if n == 3 { return None; }
      n := n + 1;
    }
    assert start + n < |text| ==> rest[n] == text[start + n];
    stop := Some(start + n);
  }

  method AppendOctet(ip: u32, value: u8) returns (r: u32)
    ensures r == Push(ip, value)
  {
    PushBits(ip, value);
    r := Or(Wrap32(ip * 256), value);
  }

  /** One turn of the loop: the text goes on at `next`. */
  method TakeOctet(text: seq<char>, at: nat, octet: nat, ip: u32) returns (ok: bool, more: u32, next: nat)
    requires at <= |text|
    ensures ok == Turn(text[at..], octet, ip).Some?
    ensures ok ==> next <= |text| && Turn(text[at..], octet, ip) == Some(Scan(more, text[next..]))
  {
    ghost var rest := text[at..];
    ok, more, next := false, ip, at;
    var stop := Part(text, at);
    if stop.None? { return; }
    var n := stop.value - at;
    assert text[at..at + n] == rest[..n] && text[at + n..] == rest[n..];
    var value := ParseNumber(text[at..at + n], 255);
    if value.None? { return; }
    more := AppendOctet(ip, value.value);
    next := at + n;
    if octet < 3 {
      if next == |text| || text[next] != '.' { return; }
      next := next + 1;
      assert text[next..] == rest[n + 1..];
    }
    ok := true;
  }

  lemma {:induction false} OctetsStep(s: seq<char>, octet: nat, ip: u32)
    requires octet < 4
    ensures Turn(s, octet, ip).None? ==> Octets(s, octet, ip) == None
    ensures Turn(s, octet, ip).Some? ==>
      Octets(s, octet, ip) == Octets(Turn(s, octet, ip).value.rest, octet + 1, Turn(s, octet, ip).value.ip)
  {
  }

  /** The octet loop: the address read and where the text goes on. */
  method ScanOctets(text: seq<char>) returns (ok: bool, ip: u32, at: nat)
    ensures ok == Octets(text, 0, 0).Some?
    ensures ok ==> at <= |text| && Octets(text, 0, 0).value == Scan(ip, text[at..])
  {
    ok, ip, at := true, 0, 0;
    assert text[0..] == text;
    for octet := 0 to 4
      invariant at <= |text| && Octets(text[at..], octet, ip) == Octets(text, 0, 0)
    {
      OctetsStep(text[at..], octet, ip);
      ok, ip, at := TakeOctet(text, at, octet, ip);
      if !ok { return; }
    }
    ok := true;
  }

  /** `net_cidr`: one pass over the text. */
  method ParseCidr(text: seq<char>) returns (r: Option<Block>)
    ensures r == Parse(text)
  {
    var ok, ip, at := ScanOctets(text);
    if !ok { return None; }
    var prefix := 32;
    if at < |text| {
      if text[at] != '/' { return None; }
      assert text[at..][1..] == text[at + 1..];
      var p := ParseNumber(text[at + 1..], 32);
      if p.None? { return None; }
      prefix := p.value;
    }
    r := Some(Masked(ip, prefix));
  }

  // ----- what is accepted

  predicate OctetText(t: seq<char>) { |t| <= 3 && Number(t, 255).Some? }

  function Dotted(parts: seq<seq<char>>, tail: seq<char>): seq<char>
    requires |parts| > 0
  {
    if |parts| == 1 then parts[0] + tail else parts[0] + ("." + Dotted(parts[1..], tail))
  }

  predicate AllOctets(parts: seq<seq<char>>) { forall i :: 0 <= i < |parts| ==> OctetText(parts[i]) }

  function Joined(ip: u32, parts: seq<seq<char>>): u32
    requires AllOctets(parts)
    decreases |parts|
  {
    if |parts| == 0 then ip
    else
      assert OctetText(parts[0]);
      Joined(Push(ip, Number(parts[0], 255).value), parts[1..])
  }

  /** Four octet texts between dots, then nothing or a slash and a prefix length. */
  ghost predicate Written(s: seq<char>, parts: seq<seq<char>>, tail: seq<char>)
  {
    |parts| == 4 && AllOctets(parts) && Prefix(tail).Some?
    && s == Dotted(parts, tail)
  }

  lemma {:induction false} TurnOf(t: seq<char>, rest: seq<char>, octet: nat, ip: u32)
    requires OctetText(t) && (rest == [] || !IsDigit(rest[0]))
    requires octet < 3 ==> rest != [] && rest[0] == '.'
    ensures Turn(t + rest, octet, ip)
         == Some(Scan(Push(ip, Number(t, 255).value), if octet < 3 then rest[1..] else rest))
  {
    DigitRunOf(t, rest);
    assert (t + rest)[..|t|] == t && (t + rest)[|t|..] == rest;
    assert octet < 3 ==> (t + rest)[|t| + 1..] == rest[1..];
  }

  /** One more octet text in front. */
  lemma {:induction false} OctetsFront(t: seq<char>, rest: seq<char>, octet: nat, ip: u32)
    requires OctetText(t) && octet < 4 && (rest == [] || !IsDigit(rest[0]) || octet < 3)
    ensures Octets(t + ((if octet < 3 then "." else "") + rest), octet, ip)
         == Octets(rest, octet + 1, Push(ip, Number(t, 255).value))
  {
    var all := (if octet < 3 then "." else "") + rest;
    assert octet < 3 ==> all[1..] == rest;
    assert octet == 3 ==> all == rest;
    TurnOf(t, all, octet, ip);
    OctetsStep(t + all, octet, ip);
  }

  lemma {:induction false} OctetsOf(parts: seq<seq<char>>, tail: seq<char>, ip: u32)
    requires 1 <= |parts| <= 4 && AllOctets(parts)
    requires tail == [] || !IsDigit(tail[0])
    ensures Octets(Dotted(parts, tail), 4 - |parts|, ip) == Some(Scan(Joined(ip, parts), tail))
    decreases |parts|
  {
    var t, rest := parts[0], parts[1..];
    assert [t] + rest == parts && OctetText(t) && AllOctets(rest);
    JoinStep(ip, t, rest);
    if |parts| == 1 {
      OctetsFront(t, tail, 3, ip);
      assert "" + tail == tail;
    } else {
      OctetsOf(rest, tail, Push(ip, Number(t, 255).value));
      OctetsMore(t, rest, tail, 4 - |parts|, ip);
    }
  }

  lemma {:induction false} OctetsMore(t: seq<char>, rest: seq<seq<char>>, tail: seq<char>, octet: nat, ip: u32)
    requires rest != [] && OctetText(t) && octet < 3
    ensures Octets(Dotted([t] + rest, tail), octet, ip)
         == Octets(Dotted(rest, tail), octet + 1, Push(ip, Number(t, 255).value))
  {
    DottedStep(t, rest, tail);
    OctetsFront(t, Dotted(rest, tail), octet, ip);
  }

  /** Every text of that form is accepted, with the block it names. */
  lemma {:induction false} Accepted(s: seq<char>, parts: seq<seq<char>>, tail: seq<char>)
    requires Written(s, parts, tail)
    ensures Parse(s) == Some(Masked(Joined(0, parts), Prefix(tail).value))
  {
    OctetsOf(parts, tail, 0);
  }

  lemma {:induction false} TurnOnly(s: seq<char>, octet: nat, ip: u32) returns (t: seq<char>, next: Scan)
    requires octet < 4 && Octets(s, octet, ip).Some?
    ensures OctetText(t)
    ensures s == t + ((if octet < 3 then "." else "") + next.rest)
    ensures Octets(next.rest, octet + 1, next.ip) == Octets(s, octet, ip)
  {
    OctetsStep(s, octet, ip);
    next := Turn(s, octet, ip).value;
    t := TurnText(s, octet, ip);
  }

  lemma {:induction false} TurnText(s: seq<char>, octet: nat, ip: u32) returns (t: seq<char>)
    requires Turn(s, octet, ip).Some?
    ensures OctetText(t)
    ensures s == t + ((if octet < 3 then "." else "") + Turn(s, octet, ip).value.rest)
  {
    t := s[..DigitRun(s)];
    assert s == t + s[|t|..];
    assert octet < 3 ==> s[|t|..] == "." + s[|t| + 1..];
  }

  lemma {:induction false} OctetsOnly(s: seq<char>, octet: nat, ip: u32) returns (parts: seq<seq<char>>)
    requires octet < 4 && Octets(s, octet, ip).Some?
    ensures |parts| == 4 - octet && AllOctets(parts)
    ensures s == Dotted(parts, Octets(s, octet, ip).value.rest)
    decreases 4 - octet
  {
    var t, next := TurnOnly(s, octet, ip);
    var tail := Octets(s, octet, ip).value.rest;
    if octet == 3 {
      parts := [t];
    } else {
      var rest := OctetsOnly(next.rest, octet + 1, next.ip);
      parts := [t] + rest;
      OctetsPush(t, rest);
      DottedStep(t, rest, tail);
    }
  }

  lemma {:induction false} OctetsPush(t: seq<char>, rest: seq<seq<char>>)
    requires OctetText(t) && AllOctets(rest)
    ensures AllOctets([t] + rest)
  {
    var all := [t] + rest;
    forall i | 0 <= i < |all| ensures OctetText(all[i]) { assert i > 0 ==> all[i] == rest[i - 1]; }
  }

  lemma {:induction false} DottedStep(t: seq<char>, rest: seq<seq<char>>, tail: seq<char>)
    requires rest != []
    ensures Dotted([t] + rest, tail) == t + ("." + Dotted(rest, tail))
  {
    assert ([t] + rest)[1..] == rest;
  }

  /** `net_cidr` accepts exactly the texts of that form. */
  lemma {:induction false} AcceptsExactly(s: seq<char>)
    ensures Parse(s).Some? <==> exists parts, tail :: Written(s, parts, tail)
  {
    if Parse(s).Some? {
      var parts := OctetsOnly(s, 0, 0);
      assert Written(s, parts, Octets(s, 0, 0).value.rest);
    }
    forall parts, tail | Written(s, parts, tail) ensures Parse(s).Some? { Accepted(s, parts, tail); }
  }

  // ----- printing

  function Octet(ip: u32, i: nat): u8
    requires i < 4
  {
    ip / (if i == 0 then 0x100_0000 else if i == 1 then 0x1_0000 else if i == 2 then 0x100 else 1) % 256
  }

  function Shr(x: nat, k: nat): nat
  {
    QuotientNat(x, Pow2(k));
    x / Pow2(k)
  }

  /** `ip >> (24 - i * 8) & 255`. */
  lemma {:induction false} OctetBits(ip: u32, i: nat)
    requires i < 4
    ensures And(Shr(ip, 24 - 8 * i), 255) == Octet(ip, i)
  {
    Pow2Values();
    assert Pow2(0) == 1;
    Pow2Add(8, 16);
    LowByte(Shr(ip, 24 - 8 * i));
  }

  function IpFrom(ip: u32, i: nat): seq<char>
    requires i < 4
    decreases 4 - i
  {
    if i == 3 then Digits(Octet(ip, 3)) else Digits(Octet(ip, i)) + ("." + IpFrom(ip, i + 1))
  }

  /** `cidr`: the text of a block. */
  function Print(b: Block): seq<char>
  {
    if b.mask == 0 then "any" else IpFrom(b.address, 0) + ("/" + Digits(PrefixLength(b.mask)))
  }

  /** What `net_print_ip` has emitted before its turn `i`. */
  function IpUpTo(ip: u32, i: nat): seq<char>
    requires i <= 4
  {
    if i == 0 then []
    else IpUpTo(ip, i - 1) + (if i > 1 then "." else "") + Digits(Octet(ip, i - 1))
  }

  lemma {:induction false} IpSplit(ip: u32, i: nat)
    requires i < 4
    ensures IpUpTo(ip, i) + ((if i > 0 then "." else "") + IpFrom(ip, i)) == IpUpTo(ip, 4)
    decreases 4 - i
  {
    if i < 3 {
      IpSplit(ip, i + 1);
      Reassociate(IpUpTo(ip, i), if i > 0 then "." else "", Digits(Octet(ip, i)), "." + IpFrom(ip, i + 1));
    } else {
      Reassociate(IpUpTo(ip, 3), ".", Digits(Octet(ip, 3)), []);
    }
  }

  lemma {:induction false} Reassociate(a: seq<char>, d: seq<char>, b: seq<char>, c: seq<char>)
    ensures a + (d + (b + c)) == a + d + b + c
    ensures b + [] == b && a + d + b + [] == a + d + b
  {
  }

  lemma {:induction false} LowByte(x: nat)
    ensures And(x, 255) == x % 256
  {
    assert Pow2(8) == 256;
    AndLow(x, 8);
  }

  method OctetAt(ip: u32, i: nat) returns (value: u8)
    requires i < 4
    ensures value == Octet(ip, i)
  {
    OctetBits(ip, i);
    value := And(Shr(ip, 24 - 8 * i), 255);
  }

  /** `net_print_ip`. */
  method PrintIp(ip: u32) returns (out: seq<char>)
    ensures out == IpFrom(ip, 0)
  {
    out := [];
    for i := 0 to 4
      invariant out == IpUpTo(ip, i)
    {
      if i != 0 { out := out + "."; }
      var octet := OctetAt(ip, i);
      var text := PrintNumber(octet);
      out := out + text;
    }
    IpSplit(ip, 0);
    assert [] + ("" + IpFrom(ip, 0)) == IpFrom(ip, 0);
  }

  method PrintCidr(ip: u32, mask: u32) returns (out: seq<char>)
    ensures out == Print(Block(ip, mask))
  {
    if mask == 0 { return "any"; }
    out := PrintIp(ip);
    var prefix := CountBits(mask);
    var digits := PrintNumber(prefix);
    out := out + ("/" + digits);
  }

  /** The four octets of an address, as texts. */
  function Texts(ip: u32): seq<seq<char>>
  {
    [Digits(Octet(ip, 0)), Digits(Octet(ip, 1)), Digits(Octet(ip, 2)), Digits(Octet(ip, 3))]
  }

  lemma {:induction false} SmallText(v: u8)
    ensures OctetText(Digits(v)) && Number(Digits(v), 255).value == v
  {
    assert Pow10(3) == 1000;
    DigitsLength(v, 3);
  }

  lemma {:induction false} IpDotted(ip: u32, i: nat, tail: seq<char>)
    requires i < 4
    ensures IpFrom(ip, i) + tail == Dotted(Texts(ip)[i..], tail)
    decreases 4 - i
  {
    var t := Texts(ip)[i];
    var rest := Texts(ip)[i + 1..];
    assert Texts(ip)[i..] == [t] + rest;
    if i < 3 {
      IpDotted(ip, i + 1, tail);
      DottedStep(t, rest, tail);
      AppendTail(t, IpFrom(ip, i + 1), tail);
    }
  }

  lemma {:induction false} AppendTail(a: seq<char>, b: seq<char>, tail: seq<char>)
    ensures a + ("." + b) + tail == a + ("." + (b + tail))
  {
  }

  lemma {:induction false} OctetsJoin(ip: u32)
    ensures AllOctets(Texts(ip))
    ensures Joined(0, Texts(ip)) == ip
  {
    var t := Texts(ip);
    SmallText(Octet(ip, 0));
    SmallText(Octet(ip, 1));
    SmallText(Octet(ip, 2));
    SmallText(Octet(ip, 3));
    JoinFour(t[0], t[1], t[2], t[3]);
    PushOctets(ip);
  }

  lemma {:induction false} JoinFour(a: seq<char>, b: seq<char>, c: seq<char>, d: seq<char>)
    requires OctetText(a) && OctetText(b) && OctetText(c) && OctetText(d)
    ensures Joined(0, [a, b, c, d])
         == Push(Push(Push(Push(0, Number(a, 255).value), Number(b, 255).value), Number(c, 255).value),
                 Number(d, 255).value)
  {
    JoinStep(0, a, [b, c, d]);
    var x := Push(0, Number(a, 255).value);
    JoinStep(x, b, [c, d]);
    var y := Push(x, Number(b, 255).value);
    JoinStep(y, c, [d]);
    var z := Push(y, Number(c, 255).value);
    JoinStep(z, d, []);
    assert [a] + [b, c, d] == [a, b, c, d] && [b] + [c, d] == [b, c, d] && [c] + [d] == [c, d] && [d] + [] == [d];
  }

  lemma {:induction false} JoinStep(ip: u32, t: seq<char>, rest: seq<seq<char>>)
    requires OctetText(t) && AllOctets(rest)
    ensures Joined(ip, [t] + rest) == Joined(Push(ip, Number(t, 255).value), rest)
  {
    assert ([t] + rest)[1..] == rest;
  }

  lemma {:induction false} PushOctets(ip: u32)
    ensures Push(Push(Push(Push(0, Octet(ip, 0)), Octet(ip, 1)), Octet(ip, 2)), Octet(ip, 3)) == ip
  {
    PushFour(Octet(ip, 0), Octet(ip, 1), Octet(ip, 2), Octet(ip, 3));
    ByteSplit(ip);
  }

  lemma {:induction false} PushFour(a: u8, b: u8, c: u8, d: u8)
    ensures Push(Push(Push(Push(0, a), b), c), d) == ((a * 256 + b) * 256 + c) * 256 + d
  {
    PushSmall(0, a);
    PushSmall(a, b);
    PushSmall(a * 256 + b, c);
    PushSmall((a * 256 + b) * 256 + c, d);
  }

  lemma {:induction false} PushSmall(ip: u32, value: u8)
    requires ip < 0x100_0000
    ensures Push(ip, value) == ip * 256 + value
  {
    DivUnique(ip, 0x100_0000, 0, ip);
  }

  /** An address taken apart: its octets, and its halves of sixteen bits. */
  lemma {:induction false} FourBytes(ip: u32) returns (a: u8, b: u8, c: u8, d: u8)
    ensures ip == ((a * 256 + b) * 256 + c) * 256 + d
    ensures Octet(ip, 0) == a && Octet(ip, 1) == b && Octet(ip, 2) == c && Octet(ip, 3) == d
    ensures ip / 0x1_0000 == a * 256 + b && ip % 0x1_0000 == c * 256 + d
  {
    var x := ip / 256;
    var y := x / 256;
    a, b, c, d := y / 256, y % 256, x % 256, ip % 256;
    assert y == a * 256 + b && x == y * 256 + c && ip == x * 256 + d;
    DivUnique(ip, 0x1_0000, y, c * 256 + d);
    DivUnique(ip, 0x100_0000, a, b * 0x1_0000 + c * 256 + d);
    assert ip / 1 == ip;
  }

  lemma {:induction false} ByteSplit(ip: u32)
    ensures ((Octet(ip, 0) * 256 + Octet(ip, 1)) * 256 + Octet(ip, 2)) * 256 + Octet(ip, 3) == ip
  {
    var a, b, c, d := FourBytes(ip);
  }

  /** A mask of leading ones. */
  ghost predicate PrefixMask(mask: u32) { exists p :: 0 <= p <= 32 && mask == Mask(p) }

  lemma {:induction false} PrefixMaskLength(mask: u32)
    ensures PrefixMask(mask) <==> mask == Mask(PrefixLength(mask))
  {
    forall p | 0 <= p <= 32 && mask == Mask(p) ensures p == PrefixLength(mask) { PrefixLengthMask(p); }
  }

  /** A block as `net_cidr` delivers it: a prefix mask, and no address bits outside it. */
  ghost predicate Normal(b: Block) { PrefixMask(b.mask) && And(b.address, b.mask) == b.address }

  /** Every block that `net_cidr` delivers is normal. */
  lemma {:induction false} ParsedNormal(s: seq<char>)
    ensures Parse(s).Some? ==> Normal(Parse(s).value)
  {
    if Parse(s).Some? {
      var r := Octets(s, 0, 0).value;
      var prefix := Prefix(r.rest).value;
      MaskTwice(r.ip, prefix);
    }
  }

  lemma {:induction false} PrintParse(b: Block)
    requires Normal(b) && b.mask != 0
    ensures Parse(Print(b)) == Some(b)
  {
    PrefixMaskLength(b.mask);
    var prefix := PrefixLength(b.mask);
    var tail := "/" + Digits(prefix);
    assert tail[1..] == Digits(prefix);
    OctetsJoin(b.address);
    IpDotted(b.address, 0, tail);
    assert Texts(b.address)[0..] == Texts(b.address);
    Accepted(Print(b), Texts(b.address), tail);
  }

  /** Printing a parsed block and parsing it again gives it back, unless it is printed "any". */
  lemma {:induction false} RoundTrip(s: seq<char>)
    ensures Parse(s).Some? ==> (Parse(Print(Parse(s).value)) == Parse(s) <==> Parse(s).value.mask != 0)
    ensures Parse("any") == None
  {
    AnyRejected();
    if Parse(s).Some? { ParsedRoundTrip(s); }
  }

  lemma {:induction false} AnyRejected()
    ensures Parse("any") == None
  {
    assert DigitRun("any") == 0;
    assert "any"[..0] == [];
  }

  lemma {:induction false} ParsedRoundTrip(s: seq<char>)
    requires Parse(s).Some?
    ensures Parse(Print(Parse(s).value)) == Parse(s) <==> Parse(s).value.mask != 0
  {
    AnyRejected();
    ParsedNormal(s);
    if Parse(s).value.mask != 0 { PrintParse(Parse(s).value); }
  }
}
