/** The source-block prefix table of the firewall and the virtual machine's scan of it: the bit by
    bit comparison is mask-and-compare, and the entry found is the longest matching block. */
module PrefixTable {
  import opened Words
  import opened Bits
  import opened Buffers
  import Packet
  import Cidr
  import BpfModel
  import BpfMemory
  import opened FirewallModel
  import opened Firewall

  // ----- keys as bytes

  /** A key as it lies in memory: its length, little-endian, and sixteen address bytes. */
  function KeyBytes(k: Key): seq<u8> { Bytes(k.prefixLength, 4) + k.address }

  predicate Sixteen(keys: seq<Key>) { forall i :: 0 <= i < |keys| ==> |keys[i].address| == 16 }

  function Flat(keys: seq<Key>): (s: seq<u8>)
    requires Sixteen(keys)
    ensures |s| == 20 * |keys|
  {
    if keys == [] then [] else Flat(keys[..|keys| - 1]) + KeyBytes(keys[|keys| - 1])
  }

  lemma {:induction false} FlatAt(keys: seq<Key>, i: nat)
    requires Sixteen(keys) && i < |keys|
    ensures BpfModel.Prefix(Flat(keys), i) == KeyBytes(keys[i])
    decreases |keys|
  {
    var n := |keys| - 1;
    var front, last := Flat(keys[..n]), KeyBytes(keys[n]);
    if i < n {
      FlatAt(keys[..n], i);
      assert (front + last)[i * 20..i * 20 + 20] == front[i * 20..i * 20 + 20];
    } else {
      assert (front + last)[n * 20..n * 20 + 20] == last;
    }
  }

  lemma {:induction false} FlatBits(keys: seq<Key>, i: nat)
    requires Sixteen(keys) && i < |keys| && keys[i].prefixLength <= 32
    ensures BpfModel.PrefixBits(Flat(keys), i) == keys[i].prefixLength
  {
    FlatAt(keys, i);
    Pow2Values();
    assert KeyBytes(keys[i])[..4] == Bytes(keys[i].prefixLength, 4);
    LeExact(keys[i].prefixLength, 4);
  }

  // ----- bits of an address

  function AddressKey(prefix: nat, ip: u32): Key { Key(prefix, Packet.Write32(ip) + ZEROES) }

  lemma {:induction false} OctetByte(ip: u32, o: nat)
    requires o < 4
    ensures Packet.Write32(ip)[o] == Cidr.Octet(ip, o)
  {
    var a, b, c, d := Cidr.FourBytes(ip);
    DivUnique(a as int * 256 + b as int, 256, a, b);
    DivUnique(c as int * 256 + d as int, 256, c, d);
  }

  /** Bit `j` of octet `o`, counted within the whole address. */
  lemma {:induction false} OctetBit(ip: u32, o: nat, j: nat)
    requires o < 4 && j < 8
    ensures Bit(Cidr.Octet(ip, o), j) == Bit(ip, 24 - 8 * o + j)
  {
    var s := 24 - 8 * o;
    Cidr.OctetBits(ip, o);
    Cidr.LowByte(ip / Pow2(s));
    var x := ip / Pow2(s);
    LowBits(x, j);
    Pow2Add(s, j);
    DivideTwice(ip, Pow2(s), Pow2(j));
  }

  lemma {:induction false} LowBits(x: nat, j: nat)
    requires j < 8
    ensures Bit(x % 256, j) == Bit(x, j)
  {
    Pow2Add(j, 8 - j);
    assert Pow2(8) == 256 && Pow2(8 - j) == 2 * Pow2(7 - j);
    LowDigits(x, x / 256, x % 256, Pow2(j), Pow2(8 - j));
    TwiceProduct(x / 256, Pow2(7 - j));
    Cidr.EvenPlus(x / 256 * Pow2(7 - j), x % 256 / Pow2(j));
  }

  lemma {:induction false} LowDigits(x: nat, h: nat, l: nat, a: nat, b: nat)
    requires a > 0 && x == h * (a * b) + l
    ensures x / a == h * b + l / a
  {
    assert l == l / a * a + l % a;
    assert h * (a * b) == h * b * a;
    assert (h * b + l / a) * a == h * b * a + l / a * a;
    DivUnique(x, a, h * b + l / a, l % a);
  }

  /** Bit `k` of an address, most significant first. */
  function TopBit(ip: u32, k: nat): nat
    requires k < 32
  {
    Bit(ip, 31 - k)
  }

  lemma {:induction false} KeyBitIs(prefix: nat, ip: u32, b: nat)
    requires b < 32
    ensures |KeyBytes(AddressKey(prefix, ip))| == 20
    ensures BpfModel.KeyBit(KeyBytes(AddressKey(prefix, ip)), b) == TopBit(ip, b)
  {
    var o := b / 8;
    OctetByte(ip, o);
    assert KeyBytes(AddressKey(prefix, ip))[4 + o] == Packet.Write32(ip)[o];
    OctetBit(ip, o, 7 - b % 8);
    assert 24 - 8 * o + (7 - b % 8) == 31 - b;
  }

  ghost predicate SameBits(a: u32, b: u32, p: nat)
    requires p <= 32
  {
    forall k :: 0 <= k < p ==> TopBit(a, k) == TopBit(b, k)
  }

  /** Agreeing on the first `p` bits is agreeing above the other `32 - p`. */
  lemma {:induction false} BitsAgree(a: u32, b: u32, p: nat)
    requires p <= 32
    ensures SameBits(a, b, p) <==> a / Pow2(32 - p) == b / Pow2(32 - p)
  {
    if p == 0 {
      Pow2Values();
    } else {
      BitsAgree(a, b, p - 1);
      ShiftStep(a, 32 - p);
      ShiftStep(b, 32 - p);
      assert SameBits(a, b, p) <==> SameBits(a, b, p - 1) && TopBit(a, p - 1) == TopBit(b, p - 1);
    }
  }

  lemma {:induction false} KeyBitsAre(ip: u32, source: u32, limit: nat, p: nat)
    requires p <= 32
    ensures |KeyBytes(AddressKey(limit, ip))| == |KeyBytes(AddressKey(p, source))| == 20
    ensures BpfModel.PrefixMatches(KeyBytes(AddressKey(limit, ip)), KeyBytes(AddressKey(p, source)), p)
      <==> SameBits(ip, source, p)
  {
    var x, y := KeyBytes(AddressKey(limit, ip)), KeyBytes(AddressKey(p, source));
    forall k | 0 <= k < p
      ensures BpfModel.KeyBit(x, k) == TopBit(ip, k) && BpfModel.KeyBit(y, k) == TopBit(source, k)
    {
      KeyBitIs(limit, ip, k);
      KeyBitIs(p, source, k);
    }
  }

  /** The bit scan equals mask-and-compare. */
  lemma {:induction false} ScanIsMask(ip: u32, source: u32, limit: nat, p: nat)
    requires p <= 32
    ensures |KeyBytes(AddressKey(limit, ip))| == |KeyBytes(AddressKey(p, source))| == 20
    ensures BpfModel.PrefixMatches(KeyBytes(AddressKey(limit, ip)), KeyBytes(AddressKey(p, source)), p)
      <==> And(ip, Cidr.Mask(p)) == And(source, Cidr.Mask(p))
  {
    KeyBitsAre(ip, source, limit, p);
    BitsAgree(ip, source, p);
    Cidr.SameMasked(ip, source, p);
  }

  // ----- the table of a rule list

  function BlockOrder(rules: seq<Rule>): (s: seq<nat>)
    ensures Numbers(rules, s)
  {
    ChosenSelects(rules, true, |rules|);
    Chosen(rules, true, |rules|)
  }

  /** The bytes the prefix map's key pointer leads to. */
  function TableBytes(rules: seq<Rule>): (s: seq<u8>)
    ensures |s| == 20 * |BlockOrder(rules)|
  {
    Flat(Keys(rules, BlockOrder(rules)))
  }

  /** The address lies in the rule's source prefix, as long as `bits` counts it. */
  predicate Covers(rule: Rule, ip: u32)
  {
    var mask := Cidr.Mask(Cidr.PrefixLength(rule.sourceMask));
    And(ip, mask) == And(rule.source, mask)
  }

  function Length(rule: Rule): nat { Cidr.PrefixLength(rule.sourceMask) }

  function LookupKey(ip: u32): (key: seq<u8>)
    ensures |key| == 20
  {
    KeyBytes(AddressKey(32, ip))
  }

  lemma {:induction false} CandidateIs(rules: seq<Rule>, k: nat, ip: u32)
    requires k < |BlockOrder(rules)|
    ensures BpfModel.PrefixBits(TableBytes(rules), k) == Length(rules[BlockOrder(rules)[k]])
    ensures BpfMemory.Candidate(TableBytes(rules), k, LookupKey(ip), 32) <==> Covers(rules[BlockOrder(rules)[k]], ip)
  {
    var keys := Keys(rules, BlockOrder(rules));
    var rule := rules[BlockOrder(rules)[k]];
    assert keys[k] == AddressKey(Length(rule), rule.source);
    FlatAt(keys, k);
    FlatBits(keys, k);
    ScanIsMask(ip, rule.source, 32, Length(rule));
  }

  /** Rule `i` is the longest source block covering the address, the earliest among equals. */
  ghost predicate LongestBlock(rules: seq<Rule>, ip: u32, i: nat)
  {
    && i < |rules| && rules[i].block && Covers(rules[i], ip)
    && forall j :: 0 <= j < |rules| && j != i && rules[j].block && Covers(rules[j], ip) ==>
         Length(rules[j]) < Length(rules[i]) || (Length(rules[j]) == Length(rules[i]) && i < j)
  }

  function Scan(rules: seq<Rule>, ip: u32): int
  {
    BpfModel.ScanFrom(TableBytes(rules), |BlockOrder(rules)|, LookupKey(ip), 32, 0, -1)
  }

  lemma {:induction false} ScanCandidates(rules: seq<Rule>, ip: u32)
    ensures BpfMemory.BestOf(TableBytes(rules), |BlockOrder(rules)|, LookupKey(ip), 32, Scan(rules, ip))
    ensures forall k :: 0 <= k < |BlockOrder(rules)| ==>
      && BpfModel.PrefixBits(TableBytes(rules), k) == Length(rules[BlockOrder(rules)[k]])
      && (BpfMemory.Candidate(TableBytes(rules), k, LookupKey(ip), 32) <==> Covers(rules[BlockOrder(rules)[k]], ip))
  {
    BpfMemory.LongestMatch(TableBytes(rules), |BlockOrder(rules)|, LookupKey(ip), 32);
    forall k | 0 <= k < |BlockOrder(rules)|
      ensures BpfModel.PrefixBits(TableBytes(rules), k) == Length(rules[BlockOrder(rules)[k]])
      ensures BpfMemory.Candidate(TableBytes(rules), k, LookupKey(ip), 32) <==> Covers(rules[BlockOrder(rules)[k]], ip)
    {
      CandidateIs(rules, k, ip);
    }
  }

  /** The scan finds an entry exactly when some block covers the address, and it finds the longest. */
  lemma {:induction false} ScanFinds(rules: seq<Rule>, ip: u32)
    ensures Scan(rules, ip) < 0 <==> forall i :: 0 <= i < |rules| && rules[i].block ==> !Covers(rules[i], ip)
    ensures Scan(rules, ip) >= 0 ==>
      Scan(rules, ip) < |BlockOrder(rules)| && LongestBlock(rules, ip, BlockOrder(rules)[Scan(rules, ip)])
  {
    ScanCandidates(rules, ip);
    var s, best := BlockOrder(rules), Scan(rules, ip);
    ChosenSelects(rules, true, |rules|);
    assert Selects(rules, true, |rules|, s);
    forall i | 0 <= i < |rules| && rules[i].block && Covers(rules[i], ip)
      ensures best >= 0
      ensures i != s[best] ==>
        Length(rules[i]) < Length(rules[s[best]]) || (Length(rules[i]) == Length(rules[s[best]]) && s[best] < i)
    {
      assert i in s;
      var k :| 0 <= k < |s| && s[k] == i;
    }
  }

  // ----- through the virtual machine's lookup

  lemma {:induction false} ScanPrefix(keys: seq<u8>, all: seq<u8>, entries: nat, key: seq<u8>, limit: nat, i: nat, best: int)
    requires |key| == 20 && entries * 20 <= |keys| && limit <= 128 && i <= entries && -1 <= best < i && keys <= all
    ensures BpfModel.ScanFrom(all, entries, key, limit, i, best) == BpfModel.ScanFrom(keys, entries, key, limit, i, best)
    decreases entries - i
  {
    if i < entries {
      assert BpfModel.Prefix(all, i) == BpfModel.Prefix(keys, i);
      assert best >= 0 ==> BpfModel.Prefix(all, best) == BpfModel.Prefix(keys, best);
      ScanPrefix(keys, all, entries, key, limit, i + 1, if BpfModel.Better(keys, i, key, limit, best) then i else best);
    }
  }

  const EARLY4 := 3

  /** The index list as it lies in memory. */
  function IndexBytes(indexes: seq<nat>): (s: seq<u8>)
    ensures |s| == 4 * |indexes|
  {
    if indexes == [] then [] else IndexBytes(indexes[..|indexes| - 1]) + Bytes(indexes[|indexes| - 1], 4)
  }

  lemma {:induction false} IndexAt(indexes: seq<nat>, i: nat)
    requires i < |indexes|
    ensures Cut(IndexBytes(indexes), i * 4, 4) == Bytes(indexes[i], 4)
    decreases |indexes|
  {
    var n := |indexes| - 1;
    var front, last := IndexBytes(indexes[..n]), Bytes(indexes[n], 4);
    if i < n {
      IndexAt(indexes[..n], i);
      assert (front + last)[i * 4..i * 4 + 4] == front[i * 4..i * 4 + 4];
    } else {
      assert (front + last)[n * 4..n * 4 + 4] == last;
    }
  }

  lemma {:induction false} FlatPrefix(keys: seq<Key>, n: nat)
    requires Sixteen(keys) && n <= |keys|
    ensures Sixteen(keys[..n]) && Flat(keys[..n]) <= Flat(keys)
    decreases |keys|
  {
    if n == |keys| {
      assert keys[..n] == keys;
    } else {
      FlatPrefix(keys[..|keys| - 1], n);
      assert keys[..|keys| - 1][..n] == keys[..n];
    }
  }

  /** What `prepare` leaves in the two tables; slots past the last block are stale. */
  ghost predicate Lists(rules: seq<Rule>, prefixes: seq<Key>, indexes: seq<nat>)
  {
    var n := |BlockOrder(rules)|;
    && n <= RULES == |prefixes| == |indexes| && Sixteen(prefixes)
    && prefixes[..n] == Keys(rules, BlockOrder(rules)) && indexes[..n] == BlockOrder(rules)
  }

  /** `prepare` leaves them so. */
  lemma {:induction false} PreparedLists(rules: seq<Rule>, prefixes: array<Key>, indexes: array<nat>)
    requires |rules| <= RULES && Listed(rules, Chosen(rules, true, |rules|), prefixes, indexes)
    requires Sixteen(prefixes[..])
    ensures Lists(rules, prefixes[..], indexes[..])
  {
    var n := |Chosen(rules, true, |rules|)|;
    assert prefixes[..][..n] == prefixes[..n] && indexes[..][..n] == indexes[..n];
  }

  /** The map the adapter hands to the source-block program. */
  function EarlyMap(n: nat, prefixes: seq<Key>, indexes: seq<nat>): BpfModel.Map
    requires Sixteen(prefixes) && n <= RULES
  {
    BpfModel.Map(BpfModel.LPM, 20, 4, RULES, n, Some(IndexBytes(indexes)), Some(Flat(prefixes)), false)
  }

  lemma {:induction false} EarlyScan(rules: seq<Rule>, prefixes: seq<Key>, indexes: seq<nat>, ip: u32)
    requires Lists(rules, prefixes, indexes)
    ensures BpfModel.ScanFrom(Flat(prefixes), |BlockOrder(rules)|, LookupKey(ip), 32, 0, -1) == Scan(rules, ip)
  {
    var n := |BlockOrder(rules)|;
    FlatPrefix(prefixes, n);
    ScanPrefix(Flat(prefixes[..n]), Flat(prefixes), n, LookupKey(ip), 32, 0, -1);
  }

  /** The slot the scan finds holds the number of the rule found. */
  lemma {:induction false} EarlyValue(rules: seq<Rule>, prefixes: seq<Key>, indexes: seq<nat>, k: nat)
    requires |rules| <= RULES && Lists(rules, prefixes, indexes) && k < |BlockOrder(rules)|
    ensures Le(Cut(IndexBytes(indexes), k * 4, 4)) == BlockOrder(rules)[k]
  {
    IndexAt(indexes, k);
    assert indexes[k] == indexes[..|BlockOrder(rules)|][k];
    Pow2Values();
    LeExact(indexes[k], 4);
  }

  /** The answer is the address of slot `k`, which holds the number of the longest covering block. */
  ghost predicate NamesLongest(rules: seq<Rule>, ip: u32, values: seq<u8>, k: nat, answer: BpfModel.Lookup)
  {
    && k < RULES && answer == BpfModel.Answer(BpfMemory.ValueAddress(EARLY4, k))
    && LongestBlock(rules, ip, Le(Cut(values, k * 4, 4)))
  }

  /** The lookup helper, called on that map with the key of an address anywhere in readable memory:
      null when no block covers the address, and otherwise the address of a value that holds the number
      of the longest covering block, the earliest among equals. */
  lemma {:induction false} EarlyLookup(e: BpfModel.Environment, m: BpfModel.Machine, keyAddress: u64, ip: u32,
                                       rules: seq<Rule>, prefixes: seq<Key>, indexes: seq<nat>)
    requires BpfModel.Sized(m) && |rules| <= RULES && Lists(rules, prefixes, indexes)
    requires m.maps[EARLY4] == EarlyMap(|BlockOrder(rules)|, prefixes, indexes)
    requires BpfMemory.KeyOf(e, m, BpfModel.HANDLES + EARLY4, keyAddress) == Some(LookupKey(ip))
    ensures var answer := BpfModel.Find(e, m, BpfModel.HANDLES + EARLY4, keyAddress);
      if forall i :: 0 <= i < |rules| && rules[i].block ==> !Covers(rules[i], ip) then answer == BpfModel.Answer(0)
      else exists k: nat :: NamesLongest(rules, ip, IndexBytes(indexes), k, answer)
  {
    var best := Scan(rules, ip);
    ScanFinds(rules, ip);
    EarlyScan(rules, prefixes, indexes, ip);
    KeyLimit(ip);
    assert BpfModel.FindKey(m, EARLY4, LookupKey(ip)) ==
      if best < 0 then BpfModel.Answer(0) else BpfModel.FindIndex(m, EARLY4, best);
    if best >= 0 {
      BpfMemory.FoundAddress(m, EARLY4, best);
      EarlyValue(rules, prefixes, indexes, best);
      assert NamesLongest(rules, ip, IndexBytes(indexes), best, BpfModel.FindKey(m, EARLY4, LookupKey(ip)));
    }
  }

  lemma {:induction false} KeyLimit(ip: u32)
    ensures Le(Cut(LookupKey(ip), 0, 4)) == 32
  {
    Pow2Values();
    assert Cut(LookupKey(ip), 0, 4) == Bytes(32, 4);
    LeExact(32, 4);
  }

  // ----- when the table means mask-and-compare

  predicate Compares(rule: Rule, ip: u32) { And(ip, rule.sourceMask) == rule.source }

  /** The rule's source block is one that `net_cidr` could have read. */
  ghost predicate Normal(rule: Rule) { Cidr.Normal(Cidr.Block(rule.source, rule.sourceMask)) }

  /** A block read by `net_cidr` gives a normal rule. */
  lemma {:induction false} ParsedIsNormal(rule: Rule, text: seq<char>)
    ensures Cidr.Parse(text) == Some(Cidr.Block(rule.source, rule.sourceMask)) ==> Normal(rule)
  {
    Cidr.ParsedNormal(text);
  }

  lemma {:induction false} NormalCovers(rule: Rule, ip: u32)
    requires Normal(rule)
    ensures Covers(rule, ip) <==> Compares(rule, ip)
  {
    Cidr.PrefixMaskLength(rule.sourceMask);
  }

  ghost predicate LongestSource(rules: seq<Rule>, ip: u32, b: nat)
  {
    && b < |rules| && rules[b].block && Compares(rules[b], ip)
    && forall j :: 0 <= j < |rules| && j != b && rules[j].block && Compares(rules[j], ip) ==>
         Length(rules[j]) < Length(rules[b]) || (Length(rules[j]) == Length(rules[b]) && b < j)
  }

  /** For rules read by `net_cidr`: an entry is found exactly when some block has
      `(ip & mask) == source`, and it is the longest such prefix, the earliest on ties. */
  lemma {:induction false} SourceBlocks(rules: seq<Rule>, ip: u32)
    requires forall i :: 0 <= i < |rules| && rules[i].block ==> Normal(rules[i])
    ensures Scan(rules, ip) >= 0 <==> exists i :: 0 <= i < |rules| && rules[i].block && Compares(rules[i], ip)
    ensures Scan(rules, ip) >= 0 ==> Scan(rules, ip) < |BlockOrder(rules)|
    ensures Scan(rules, ip) >= 0 ==> LongestSource(rules, ip, BlockOrder(rules)[Scan(rules, ip)])
  {
    ScanFinds(rules, ip);
    forall i | 0 <= i < |rules| && rules[i].block ensures Covers(rules[i], ip) <==> Compares(rules[i], ip) {
      NormalCovers(rules[i], ip);
    }
  }

  /** Adding to a part of `m` what `m` lacks of `full` changes nothing under `m`. */
  lemma {:induction false} FillUp(s: nat, m: nat, full: nat)
    requires And(s, m) == s && And(m, full) == m
    ensures m <= full && And(s + (full - m), m) == s && And(s + (full - m), full) == s + (full - m)
    decreases full
  {
    if full > 0 {
      Halve(s, m);
      Halve(m, full);
      FillUp(s / 2, m / 2, full / 2);
      FillStep(s, m, full);
    }
  }

  lemma {:induction false} FillStep(s: nat, m: nat, full: nat)
    requires s % 2 <= m % 2 <= full % 2 && m / 2 <= full / 2
    requires And(s / 2 + (full / 2 - m / 2), m / 2) == s / 2
    requires And(s / 2 + (full / 2 - m / 2), full / 2) == s / 2 + (full / 2 - m / 2)
    ensures m <= full && And(s + (full - m), m) == s && And(s + (full - m), full) == s + (full - m)
  {
    var x := s + (full - m);
    assert x / 2 == s / 2 + (full / 2 - m / 2) && x % 2 == s % 2 + (full % 2 - m % 2);
    AndSplit(x, m);
    AndSplit(x, full);
    BitCase(s % 2, m % 2, full % 2);
  }

  lemma {:induction false} BitCase(s: nat, m: nat, full: nat)
    requires s <= m <= full <= 1
    ensures (s + (full - m)) * m == s && (s + (full - m)) * full == s + (full - m)
  {
    assert full == 0 || full == 1;
    assert m == 0 || m == 1;
  }

  lemma {:induction false} Halve(a: nat, b: nat)
    requires And(a, b) == a
    ensures And(a / 2, b / 2) == a / 2 && a % 2 <= b % 2
  {
    AndSplit(a, b);
  }

  /** The bit scan is mask-and-compare for every address exactly when the rule is normal. */
  lemma {:induction false} NormalExactly(rule: Rule)
    ensures (forall ip: u32 :: Covers(rule, ip) <==> Compares(rule, ip)) <==> Normal(rule)
  {
    if Normal(rule) {
      forall ip: u32 ensures Covers(rule, ip) <==> Compares(rule, ip) { NormalCovers(rule, ip); }
    } else {
      var x := Differs(rule);
      assert !(Covers(rule, x) <==> Compares(rule, x));
    }
  }

  /** An address on which they differ, for a rule that is not normal. */
  lemma {:induction false} Differs(rule: Rule) returns (x: u32)
    requires !Normal(rule)
    ensures !(Covers(rule, x) <==> Compares(rule, x))
  {
    Cidr.PrefixMaskLength(rule.sourceMask);
    if And(rule.source, rule.sourceMask) != rule.source {
      x := rule.source;
    } else {
      x := Overfull(rule.source, rule.sourceMask, Cidr.Mask(Length(rule)));
    }
  }

  lemma {:induction false} Overfull(source: u32, mask: u32, full: u32) returns (x: u32)
    requires full == Cidr.Mask(Cidr.PrefixLength(mask)) && mask != full && And(source, mask) == source
    ensures And(x, mask) == source && And(x, full) != And(source, full)
  {
    Cidr.MaskInside(mask);
    OverfullCore(source, mask, full);
    x := source + (full - mask);
  }

  lemma {:induction false} OverfullCore(source: nat, mask: nat, full: nat)
    requires And(source, mask) == source && And(mask, full) == mask && mask != full
    ensures mask <= full && source <= mask && And(source + (full - mask), mask) == source
    ensures And(source + (full - mask), full) != And(source, full)
  {
    FillUp(0, source, mask);
    FillUp(source, mask, full);
    InsideBoth(source, mask, full);
  }

  lemma {:induction false} InsideBoth(s: nat, m: nat, full: nat)
    requires And(s, m) == s && And(m, full) == m
    ensures And(s, full) == s
    decreases full
  {
    if full > 0 {
      Halve(s, m);
      Halve(m, full);
      InsideBoth(s / 2, m / 2, full / 2);
      AndSplit(s, full);
    }
  }
}
