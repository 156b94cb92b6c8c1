/** Memory of the virtual machine: what a lookup's answer points at, what a store leaves behind,
    and which entry a prefix map selects. */
module BpfMemory {
  import opened Words
  import opened Bits
  import opened Buffers
  import opened BpfModel
  import opened BpfSound

  // ----- lookup answers as addresses

  /** Virtual address of value `index` of map `id`. */
  function ValueAddress(id: nat, index: nat): nat { VALUES + id * 0x10_0000 + index * 256 }

  /** A found value's answer is its own address: array lookups answer with the indexed value, or
      with null past the end. */
  lemma {:induction false} FoundAddress(m: Machine, id: nat, index: nat)
    requires Sized(m) && id < MAPS && m.maps[id].kind != MAP_ARRAY && m.maps[id].capacity <= 4096
    ensures FindIndex(m, id, index) ==
      if index < m.maps[id].capacity then Answer(ValueAddress(id, index)) else Answer(0)
  {
  }

  /** The access to `size` bytes from byte `j` of the value's address goes to that very byte. */
  predicate Behind(e: Environment, maps: seq<Map>, id: nat, index: nat, j: nat, size: nat, write: bool)
    requires |maps| == MAPS && id < MAPS && index < 4096 && j < 256
  {
    Translate(e, maps, ValueAddress(id, index) + j, size, write) == Some(InValue(id, index * maps[id].valueSize + j))
  }

  /** A write needs a writable map and nothing else; a read needs that neither the context nor the
      packet reaches up to the address. */
  predicate Permitted(e: Environment, maps: seq<Map>, id: nat, index: nat, j: nat, size: nat, write: bool)
    requires |maps| == MAPS && id < MAPS
  {
    if write then maps[id].writable
    else var end := ValueAddress(id, index) + j + size; CTX + |e.context| < end && DATA + |e.packet| < end
  }

  /** Byte `j` behind a value's address translates back to byte `j` of that very value. */
  lemma {:induction false} AnswerTranslates(e: Environment, m: Machine, id: nat, index: nat, j: nat, size: nat, write: bool)
    requires Sized(m) && id < MAPS && m.maps[id].values.Some? && m.maps[id].valueSize <= 256
    requires index < m.maps[id].capacity <= 4096
    requires 0 < size && j + size <= m.maps[id].valueSize
    ensures Behind(e, m.maps, id, index, j, size, write) <==> Permitted(e, m.maps, id, index, j, size, write)
  {
    ValueOffset(id, index, j);
  }

  /** An address in the value region taken apart. */
  lemma {:induction false} ValueOffset(id: nat, index: nat, j: nat)
    requires index < 4096 && j < 256
    ensures var offset := ValueAddress(id, index) + j - VALUES;
      && offset / 0x10_0000 == id
      && offset % 0x10_0000 / 256 == index && offset % 0x10_0000 % 256 == j
  {
    DivUnique(ValueAddress(id, index) + j - VALUES, 0x10_0000, id, index * 256 + j);
    DivUnique(index * 256 + j, 256, index, j);
  }

  // ----- the lookup helper

  /** The key bytes a lookup reads, if the call is well formed. */
  function KeyOf(e: Environment, m: Machine, handle: u64, keyAddress: u64): Option<seq<u8>>
    requires Sized(m)
  {
    if handle < HANDLES || handle >= HANDLES + MAPS then None
    else
      var p := m.maps[handle - HANDLES];
      match Translate(e, m.maps, keyAddress, p.keySize, false)
      case None => None
      case Some(place) => Some(Load(e, m, place, p.keySize))
  }

  lemma {:induction false} KeyFound(m: Machine, id: nat, key: seq<u8>) returns (index: nat)
    requires Sized(m) && id < MAPS && m.maps[id].kind != MAP_ARRAY && m.maps[id].capacity <= 4096
    requires FindKey(m, id, key).Answer? && FindKey(m, id, key).value != 0
    ensures index < m.maps[id].capacity && FindKey(m, id, key) == Answer(ValueAddress(id, index))
    ensures m.maps[id].kind != LPM ==> index == Le(Cut(key, 0, 4))
    ensures m.maps[id].kind == LPM ==> m.maps[id].keys.Some? && |key| == 20 && Le(Cut(key, 0, 4)) <= 128
    ensures m.maps[id].kind == LPM ==>
      index == ScanFrom(m.maps[id].keys.value, m.maps[id].entries, key, Le(Cut(key, 0, 4)), 0, -1)
  {
    var p, limit := m.maps[id], Le(Cut(key, 0, 4));
    assert MapSized(p);
    index := if p.kind == LPM then ScanFrom(p.keys.value, p.entries, key, limit, 0, -1) else limit;
    FoundAddress(m, id, index);
  }

  /** A lookup that answers with an address answers with that of one value of its own map: the indexed
      one of an array, the longest match of a prefix map. */
  lemma {:induction false} LookupAnswer(e: Environment, m: Machine, handle: u64, keyAddress: u64)
    returns (id: nat, index: nat)
    requires Sized(m) && Find(e, m, handle, keyAddress).Answer? && Find(e, m, handle, keyAddress).value != 0
    requires m.maps[handle - HANDLES].kind != MAP_ARRAY
    ensures handle == HANDLES + id && id < MAPS && index < m.maps[id].capacity <= 4096
    ensures m.maps[id].values.Some? && 0 < m.maps[id].valueSize <= 256
    ensures Find(e, m, handle, keyAddress) == Answer(ValueAddress(id, index))
    ensures KeyOf(e, m, handle, keyAddress).Some?
    ensures var key := KeyOf(e, m, handle, keyAddress).value;
      if m.maps[id].kind != LPM then index == Le(Cut(key, 0, 4))
      else m.maps[id].keys.Some? && |key| == 20 && Le(Cut(key, 0, 4)) <= 128 && MapSized(m.maps[id]) &&
           BestOf(m.maps[id].keys.value, m.maps[id].entries, key, Le(Cut(key, 0, 4)), index)
  {
    id := handle - HANDLES;
    var key := KeyOf(e, m, handle, keyAddress).value;
    index := KeyFound(m, id, key);
    assert MapSized(m.maps[id]);
    if m.maps[id].kind == LPM {
      LongestMatch(m.maps[id].keys.value, m.maps[id].entries, key, Le(Cut(key, 0, 4)));
    }
  }

  /** From the call to the access: byte `j` behind a lookup's answer, in whatever state `n` the program
      has reached by then, is byte `j` of that value of that map, if and only if the map is writable
      (for a write), or the context and the packet do not reach up to the address (for a read). */
  lemma {:induction false} LookupTranslates(e: Environment, m: Machine, handle: u64, keyAddress: u64, n: Machine,
                                            j: nat, size: nat, write: bool) returns (id: nat, index: nat)
    requires Sized(m) && Find(e, m, handle, keyAddress).Answer? && Find(e, m, handle, keyAddress).value != 0
    requires m.maps[handle - HANDLES].kind != MAP_ARRAY
    requires Confined(m, n) && 0 < size && j + size <= m.maps[handle - HANDLES].valueSize
    ensures handle == HANDLES + id && id < MAPS && index < m.maps[id].capacity <= 4096 && m.maps[id].valueSize <= 256
    ensures |n.maps| == MAPS && n.maps[id].valueSize == m.maps[id].valueSize
    ensures Find(e, m, handle, keyAddress) == Answer(ValueAddress(id, index))
    ensures Behind(e, n.maps, id, index, j, size, write) <==> Permitted(e, m.maps, id, index, j, size, write)
  {
    id, index := LookupAnswer(e, m, handle, keyAddress);
    ConfinedSized(m, n);
    AnswerTranslates(e, n, id, index, j, size, write);
  }

  /** An array of maps answers with null or with the handle of one of the maps. */
  lemma {:induction false} InnerHandle(e: Environment, m: Machine, handle: u64, keyAddress: u64)
    requires Sized(m) && Find(e, m, handle, keyAddress).Answer?
    requires m.maps[handle - HANDLES].kind == MAP_ARRAY
    ensures var v := Find(e, m, handle, keyAddress).value; v == 0 || HANDLES <= v < HANDLES + MAPS
  {
  }

  // ----- stores and loads

  /** A load sees what the store to the same place left: the value's low bytes. */
  lemma {:induction false} StoreThenLoad(e: Environment, m: Machine, address: u64, size: nat, value: u64)
    requires Sized(m) && Translate(e, m.maps, address, size, true).Some?
    ensures var p := Translate(e, m.maps, address, size, true).value;
      Le(Load(e, StoreAt(m, p, Bytes(value, size)), p, size)) == value % Pow2(8 * size)
  {
    var p := Translate(e, m.maps, address, size, true).value;
    WritePlace(e, m, address, size);
    LeBytes(value, size);
    var text := Bytes(value, size);
    match p
    case OnStack(at) => CutPaste(m.stack, at, text);
    case InValue(id, at) =>
      var k :| 0 <= k < m.maps[id].capacity && InsideValue(m.maps[id], k, at, size);
      MulMono(k + 1, m.maps[id].capacity, m.maps[id].valueSize);
      assert MapSized(m.maps[id]);
      CutPaste(m.maps[id].values.value, at, text);
    case _ =>
  }

  /** A granted access lies wholly inside the buffer behind it. */
  lemma {:induction false} AccessInBounds(e: Environment, m: Machine, address: u64, size: nat, write: bool)
    requires Sized(m) && Translate(e, m.maps, address, size, write).Some?
    ensures |Load(e, m, Translate(e, m.maps, address, size, write).value, size)| == size
  {
    var p := Translate(e, m.maps, address, size, write).value;
    if p.InValue? {
      var v := m.maps[p.id];
      assert MapSized(v);
      MulMono((address - VALUES) % 0x10_0000 / 256 + 1, v.capacity, v.valueSize);
    }
  }

  // ----- the prefix scan selects the longest match, the earliest among equals

  /** Entry `i` is short enough for the key and agrees with it on all its bits. */
  predicate Candidate(keys: seq<u8>, i: nat, key: seq<u8>, limit: nat)
    requires |key| == 20 && i * 20 + 20 <= |keys| && limit <= 128
  {
    PrefixBits(keys, i) <= limit && PrefixMatches(key, Prefix(keys, i), PrefixBits(keys, i))
  }

  ghost predicate BestOf(keys: seq<u8>, n: nat, key: seq<u8>, limit: nat, best: int)
    requires |key| == 20 && n * 20 <= |keys| && limit <= 128
  {
    if best < 0 then best == -1 && forall i :: 0 <= i < n ==> !Candidate(keys, i, key, limit)
    else
      && best < n && Candidate(keys, best, key, limit)
      && forall i :: 0 <= i < n && i != best && Candidate(keys, i, key, limit) ==>
           PrefixBits(keys, i) < PrefixBits(keys, best) ||
           (PrefixBits(keys, i) == PrefixBits(keys, best) && best < i)
  }

  lemma {:induction false} ScanBest(keys: seq<u8>, entries: nat, key: seq<u8>, limit: nat, i: nat, best: int)
    requires |key| == 20 && entries * 20 <= |keys| && limit <= 128
    requires i <= entries && -1 <= best < i && BestOf(keys, i, key, limit, best)
    ensures BestOf(keys, entries, key, limit, ScanFrom(keys, entries, key, limit, i, best))
    decreases entries - i
  {
    if i < entries {
      var next := if Better(keys, i, key, limit, best) then i else best;
      BestNext(keys, i, key, limit, best);
      ScanBest(keys, entries, key, limit, i + 1, next);
    }
  }

  lemma {:induction false} BestNext(keys: seq<u8>, i: nat, key: seq<u8>, limit: nat, best: int)
    requires |key| == 20 && (i + 1) * 20 <= |keys| && limit <= 128 && -1 <= best < i && BestOf(keys, i, key, limit, best)
    ensures BestOf(keys, i + 1, key, limit, if Better(keys, i, key, limit, best) then i else best)
  {
  }

  /** The scan answers -1 exactly when nothing matches, and otherwise the longest match. */
  lemma {:induction false} LongestMatch(keys: seq<u8>, entries: nat, key: seq<u8>, limit: nat)
    requires |key| == 20 && entries * 20 <= |keys| && limit <= 128
    ensures BestOf(keys, entries, key, limit, ScanFrom(keys, entries, key, limit, 0, -1))
  {
    ScanBest(keys, entries, key, limit, 0, -1);
  }
}
