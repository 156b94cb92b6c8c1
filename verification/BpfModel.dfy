/** The eBPF virtual machine of jordyOS/net/bpf_vm.c: structural validator, address translation,
    map lookup and the instruction step, on values.  Registers are 64-bit, arithmetic wraps. */
module BpfModel {
  import opened Words
  import opened Bits
  import opened Buffers

  const MAX_INSNS := 4096
  const FUEL := 65536
  const MAPS := 7
  const CTX := 0x1000_0000
  const DATA := 0x2000_0000
  const STACK := 0x3000_0000
  const VALUES := 0x4000_0000
  const HANDLES := 0x8000_0000
  const ARRAY := 2
  const PERCPU_ARRAY := 6
  const LPM := 11
  const MAP_ARRAY := 12

  datatype Insn = Insn(code: u8, regs: u8, offset: i16, imm: i32)

  /** A map: its values (`None` for a null pointer), and for prefix maps the 20-byte keys. */
  datatype Map = Map(
    kind: u32, keySize: u32, valueSize: u32, capacity: u32, entries: u32,
    values: Option<seq<u8>>, keys: Option<seq<u8>>, writable: bool)

  /** What a program can only read. */
  datatype Environment = Environment(context: seq<u8>, packet: seq<u8>)

  datatype Machine = Machine(pc: nat, r: seq<u64>, stack: seq<u8>, maps: seq<Map>)

  /** The buffers behind the map pointers are as large as the map says. */
  predicate MapSized(m: Map)
  {
    && (m.values.Some? ==> |m.values.value| == m.capacity * m.valueSize)
    && (m.keys.Some? ==> |m.keys.value| >= m.entries * 20)
  }

  predicate Sized(m: Machine)
  {
    && |m.r| == 11 && |m.stack| == 512 && |m.maps| == MAPS
    && forall i :: 0 <= i < |m.maps| ==> MapSized(m.maps[i])
  }

  // ----- instruction fields

  function Dst(i: Insn): nat { i.regs % 16 }
  function Src(i: Insn): nat { i.regs / 16 }
  function Class(i: Insn): nat { i.code % 8 }
  function Op(i: Insn): nat { i.code / 16 * 16 }
  predicate UsesReg(i: Insn) { i.code / 8 % 2 == 1 }
  predicate Wide(i: Insn) { i.code == 0x18 }

  // ----- the validator

  predicate Target(code: seq<Insn>, pc: nat, offset: int)
  {
    0 <= pc + 1 + offset < |code| && code[pc + 1 + offset].code != 0
  }

  predicate WideOk(code: seq<Insn>, pc: nat)
    requires pc < |code|
  {
    var i := code[pc];
    && Dst(i) != 10 && i.offset == 0 && Src(i) <= 1 && pc + 1 < |code|
    && var hi := code[pc + 1];
       && hi.code == 0 && hi.regs == 0 && hi.offset == 0
       && (Src(i) == 1 ==> 0 <= i.imm < MAPS && hi.imm == 0)
  }

  predicate AluOk(i: Insn)
  {
    && Dst(i) != 10 && i.offset == 0
    && if Op(i) == 0xd0 then Class(i) == 4 && Src(i) == 0 && i.imm in {16, 32, 64}
       else
         && Op(i) <= 0xc0 && !(Op(i) == 0x80 && UsesReg(i))
         && (if UsesReg(i) then i.imm == 0 else Src(i) == 0)
         && (Op(i) == 0x80 ==> i.imm == 0)
  }

  predicate MemOk(i: Insn)
  {
    && i.code / 32 == 3
    && (Class(i) == 1 ==> Dst(i) != 10 && i.imm == 0)
    && (Class(i) == 2 ==> Src(i) == 0)
    && (Class(i) == 3 ==> i.imm == 0)
  }

  predicate JumpOk(code: seq<Insn>, pc: nat)
    requires pc < |code|
  {
    var i := code[pc];
    if Op(i) == 0x80 then i.code == 0x85 && i.regs == 0 && i.offset == 0 && i.imm == 1
    else if Op(i) == 0x90 then i.code == 0x95 && i.regs == 0 && i.offset == 0 && i.imm == 0
    else
      && Op(i) <= 0xd0
      && (if Op(i) == 0 then i.code == 0x05 && i.regs == 0 && i.imm == 0
          else if UsesReg(i) then i.imm == 0 else Src(i) == 0)
      && Target(code, pc, i.offset)
  }

  predicate InsnOk(code: seq<Insn>, pc: nat)
    requires pc < |code|
  {
    var i := code[pc];
    && Dst(i) <= 10 && Src(i) <= 10
    && if Wide(i) then WideOk(code, pc)
       else match Class(i)
         case 4 => AluOk(i)
         case 7 => AluOk(i)
         case 1 => MemOk(i)
         case 2 => MemOk(i)
         case 3 => MemOk(i)
         case 5 => JumpOk(code, pc)
         case 6 => JumpOk(code, pc)
         case _ => false
  }

  function Width(i: Insn): nat { if Wide(i) then 2 else 1 }

  predicate IsExit(i: Insn) { i.code == 0x95 }

  /** The validator's walk from slot `pc`, having seen an exit or not. */
  predicate ValidFrom(code: seq<Insn>, pc: nat, exit: bool)
    decreases |code| - pc
  {
    if pc >= |code| then exit
    else InsnOk(code, pc) && ValidFrom(code, pc + Width(code[pc]), exit || IsExit(code[pc]))
  }

  predicate Valid(code: seq<Insn>)
  {
    0 < |code| <= MAX_INSNS && ValidFrom(code, 0, false)
  }

  // ----- address translation

  datatype Place = OnStack(at: nat) | InContext(at: nat) | InPacket(at: nat) | InValue(id: nat, at: nat)

  /** `memory`: the native place behind a virtual address range, or None. */
  function Translate(e: Environment, maps: seq<Map>, address: u64, size: nat, write: bool): Option<Place>
    requires |maps| == MAPS
  {
    if address >= STACK && address - STACK <= 512 && size <= 512 - (address - STACK) then
      Some(OnStack(address - STACK))
    else if !write && address >= CTX && address - CTX <= |e.context| && size <= |e.context| - (address - CTX) then
      Some(InContext(address - CTX))
    else if !write && address >= DATA && address - DATA <= |e.packet| && size <= |e.packet| - (address - DATA) then
      Some(InPacket(address - DATA))
    else if address < VALUES || address >= VALUES + MAPS * 0x10_0000 then None
    else
      var id := (address - VALUES) / 0x10_0000;
      var offset := (address - VALUES) % 0x10_0000;
      var index, within := offset / 256, offset % 256;
      var m := maps[id];
      if m.values.None? || m.valueSize > 256 || index >= m.capacity || within > m.valueSize ||
         size > m.valueSize - within || (write && !m.writable) then None
      else Some(InValue(id, index * m.valueSize + within))
  }

  function Load(e: Environment, m: Machine, p: Place, size: nat): seq<u8>
  {
    match p
    case OnStack(at) => Cut(m.stack, at, size)
    case InContext(at) => Cut(e.context, at, size)
    case InPacket(at) => Cut(e.packet, at, size)
    case InValue(id, at) =>
      if id < |m.maps| && m.maps[id].values.Some? then Cut(m.maps[id].values.value, at, size) else []
  }

  function StoreAt(m: Machine, p: Place, text: seq<u8>): Machine
  {
    match p
    case OnStack(at) => m.(stack := Paste(m.stack, at, text))
    case InValue(id, at) =>
      if id < |m.maps| && m.maps[id].values.Some? then
        m.(maps := m.maps[id := m.maps[id].(values := Some(Paste(m.maps[id].values.value, at, text)))])
      else m
    case _ => m
  }

  // ----- map lookup

  /** Bit `b` of a prefix key, most significant bit of the first address byte first. */
  function KeyBit(key: seq<u8>, b: nat): nat
    requires 4 + b / 8 < |key|
  {
    Bit(key[4 + b / 8], 7 - b % 8)
  }

  predicate PrefixMatches(key: seq<u8>, prefix: seq<u8>, bits: nat)
    requires bits <= 128 && |key| == 20 && |prefix| == 20
  {
    forall b :: 0 <= b < bits ==> KeyBit(key, b) == KeyBit(prefix, b)
  }

  function Prefix(keys: seq<u8>, i: nat): seq<u8>
    requires i * 20 + 20 <= |keys|
  {
    keys[i * 20..i * 20 + 20]
  }

  function PrefixBits(keys: seq<u8>, i: nat): nat
    requires i * 20 + 20 <= |keys|
  {
    Le(Prefix(keys, i)[..4])
  }

  /** Entry `i` improves on the best one so far. */
  predicate Better(keys: seq<u8>, i: nat, key: seq<u8>, limit: nat, best: int)
    requires |key| == 20 && i * 20 + 20 <= |keys| && limit <= 128
    requires best >= 0 ==> best * 20 + 20 <= |keys|
  {
    var bits := PrefixBits(keys, i);
    && bits <= limit && (best >= 0 ==> bits > PrefixBits(keys, best))
    && PrefixMatches(key, Prefix(keys, i), bits)
  }

  /** The scan of the prefix table from entry `i` on. */
  function ScanFrom(keys: seq<u8>, entries: nat, key: seq<u8>, limit: nat, i: nat, best: int): (r: int)
    requires |key| == 20 && entries * 20 <= |keys| && limit <= 128
    requires i <= entries && -1 <= best < i
    ensures -1 <= r < entries || r == best
    decreases entries - i
  {
    if i == entries then best
    else ScanFrom(keys, entries, key, limit, i + 1, if Better(keys, i, key, limit, best) then i else best)
  }

  datatype Lookup = Fault | Answer(value: u64)

  /** `bpf_map_lookup_elem`. */
  function Find(e: Environment, m: Machine, handle: u64, keyAddress: u64): Lookup
    requires Sized(m)
  {
    if handle < HANDLES || handle >= HANDLES + MAPS then Fault
    else
      var id := handle - HANDLES;
      var p := m.maps[id];
      if p.values.None? || p.valueSize == 0 || p.valueSize > 256 || p.capacity > 4096 ||
         (p.keySize != 4 && p.keySize != 20) then Fault
      else
        match Translate(e, m.maps, keyAddress, p.keySize, false)
        case None => Fault
        case Some(place) => FindKey(m, id, Load(e, m, place, p.keySize))
  }

  function FindKey(m: Machine, id: nat, key: seq<u8>): Lookup
    requires Sized(m) && id < MAPS
  {
    var p := m.maps[id];
    var index := Le(Cut(key, 0, 4));
    if p.kind == LPM then
      if p.keySize != 20 || p.keys.None? || index > 128 || p.entries > p.capacity || |key| != 20 then Fault
      else
        var best := ScanFrom(p.keys.value, p.entries, key, index, 0, -1);
        if best < 0 then Answer(0) else FindIndex(m, id, best)
    else if p.kind == ARRAY || p.kind == PERCPU_ARRAY || p.kind == MAP_ARRAY then FindIndex(m, id, index)
    else Fault
  }

  function FindIndex(m: Machine, id: nat, index: nat): Lookup
    requires Sized(m) && id < MAPS
  {
    var p := m.maps[id];
    if index >= p.capacity then Answer(0)
    else if p.kind == MAP_ARRAY then
      if p.valueSize != 4 || p.values.None? then Fault
      else
        var inner := Le(Cut(p.values.value, index * 4, 4));
        if inner >= MAPS then Fault else Answer(HANDLES + inner)
    else Answer(Wrap64(VALUES + id * 0x10_0000 + index * 256))
  }

  // ----- arithmetic

  function Signed64(a: u64): int { if a >= 0x8000_0000_0000_0000 then a - 0x1_0000_0000_0000_0000 else a }

  function Signed32(a: int): int
  {
    var w := Wrap32(a);
    if w >= 0x8000_0000 then w - 0x1_0000_0000 else w
  }

  function Quotient(n: u64, d: u64): (q: u64)
    ensures d == 0 ==> q == 0
  {
    if d == 0 then 0 else DivSmaller(n, d); n / d
  }

  lemma {:induction false} DivSmaller(n: nat, d: nat)
    requires d > 0
    ensures 0 <= n / d <= n
  {
    DivCore(n, d, n / d, n % d);
  }

  lemma {:induction false} DivCore(n: nat, d: nat, q: int, t: nat)
    requires n == q * d + t && t < d
    ensures 0 <= q <= n
  {
    MulMono(q, -1, d);
    MulMono(1, d, Max(0, q));
  }

  function Remainder(n: u64, d: u64): u64
  {
    if d == 0 then n else ModSmaller(n, d); n % d
  }

  lemma {:induction false} ModSmaller(n: nat, d: nat)
    requires d > 0
    ensures 0 <= n % d <= n
  {
    DivSmaller(n, d);
    assert n == n / d * d + n % d;
    assert n / d * d >= 0;
  }

  function Bitwise(op: nat, a: u64, b: u64): u64
  {
    Pow2Values();
    BitwiseWidth(a, b, 64);
    if op == 0x40 then Or(a, b) else if op == 0x50 then And(a, b) else Xor(a, b)
  }

  /** The ALU switch; None for an operation code it does not know. */
  function Alu(op: nat, a: u64, b: u64, wide: bool): Option<u64>
  {
    var shift := b % if wide then 64 else 32;
    match op
    case 0x00 => Some(Wrap64(a + b))
    case 0x10 => Some(Wrap64(a - b))
    case 0x20 => Some(Wrap64(a * b))
    case 0x30 => Some(Quotient(a, b))
    case 0x40 => Some(Bitwise(op, a, b))
    case 0x50 => Some(Bitwise(op, a, b))
    case 0x60 => Some(Wrap64(a * Pow2(shift)))
    case 0x70 => Some(Wrap64(a / Pow2(shift)))
    case 0x80 => Some(Wrap64(0 - a))
    case 0x90 => Some(Remainder(a, b))
    case 0xa0 => Some(Bitwise(op, a, b))
    case 0xb0 => Some(b)
    case 0xc0 => Some(if wide then Wrap64(Signed64(a) / Pow2(shift)) else Wrap32(Signed32(a) / Pow2(shift)))
    case _ => None
  }

  /** The byte-reversing loop of the big-endian conversion. */
  function Swap(a: nat, n: nat, acc: u64): u64
    decreases n
  {
    if n == 0 then acc else Swap(a / 256, n - 1, Wrap64(acc * 256 + a % 256))
  }

  function Convert(a: u64, bits: int, swap: bool): u64
  {
    var low: u64 := if bits == 16 then a % 0x1_0000 else if bits == 32 then a % 0x1_0000_0000 else a;
    if swap then Swap(low, if bits == 16 then 2 else if bits == 32 then 4 else 8, 0) else low
  }

  /** The jump switch; None for an operation code it does not know. */
  function Taken(op: nat, a: u64, b: u64, sa: int, sb: int): Option<bool>
  {
    match op
    case 0x00 => Some(true)
    case 0x10 => Some(a == b)
    case 0x20 => Some(a > b)
    case 0x30 => Some(a >= b)
    case 0x40 => Some(And(a, b) != 0)
    case 0x50 => Some(a != b)
    case 0x60 => Some(sa > sb)
    case 0x70 => Some(sa >= sb)
    case 0xa0 => Some(a < b)
    case 0xb0 => Some(a <= b)
    case 0xc0 => Some(sa < sb)
    case 0xd0 => Some(sa <= sb)
    case _ => None
  }

  // ----- one instruction

  datatype Outcome =
    | Next(m: Machine)
    | Exited(value: u64)
    | Malformed          // a structural check of the interpreter rejects the instruction
    | BadAccess          // `memory` refuses the address
    | BadLookup          // the helper fails

  function StepWide(code: seq<Insn>, i: Insn, m: Machine): Outcome
    requires Sized(m) && Dst(i) <= 10
  {
    if m.pc >= |code| || Dst(i) == 10 || Src(i) > 1 then Malformed
    else
      var value := Wrap32(i.imm) + 0x1_0000_0000 * Wrap32(code[m.pc].imm);
      var m1 := m.(pc := m.pc + 1);
      if Src(i) == 0 then Next(m1.(r := m.r[Dst(i) := value]))
      else if value >= MAPS then Malformed
      else Next(m1.(r := m.r[Dst(i) := value + HANDLES]))
  }

  function Operand(i: Insn, m: Machine): u64
    requires Sized(m) && Src(i) <= 10
  {
    if UsesReg(i) then m.r[Src(i)] else Wrap64(i.imm)
  }

  function StepAlu(i: Insn, m: Machine): Outcome
    requires Sized(m) && Dst(i) <= 10 && Src(i) <= 10
  {
    var wide := Class(i) == 7;
    if Dst(i) == 10 then Malformed
    else if Op(i) == 0xd0 then
      if wide || !(i.imm in {16, 32, 64}) then Malformed
      else Next(m.(r := m.r[Dst(i) := Convert(m.r[Dst(i)], i.imm, UsesReg(i))]))
    else
      var a: u64 := if wide then m.r[Dst(i)] else Wrap32(m.r[Dst(i)]);
      var b: u64 := if wide then Operand(i, m) else Wrap32(Operand(i, m));
      match Alu(Op(i), a, b, wide)
      case None => Malformed
      case Some(value) => Next(m.(r := m.r[Dst(i) := if wide then value else Wrap32(value)]))
  }

  function AccessSize(i: Insn): nat
  {
    match i.code / 8 % 4
    case 0 => 4
    case 1 => 2
    case 2 => 1
    case _ => 8
  }

  function StepMem(e: Environment, i: Insn, m: Machine): Outcome
    requires Sized(m) && Dst(i) <= 10 && Src(i) <= 10
  {
    var load := Class(i) == 1;
    if i.code / 32 != 3 || (load && Dst(i) == 10) then Malformed
    else
      var base := if load then m.r[Src(i)] else m.r[Dst(i)];
      var address := Wrap64(base + i.offset);
      match Translate(e, m.maps, address, AccessSize(i), !load)
      case None => BadAccess
      case Some(p) =>
        if load then Next(m.(r := m.r[Dst(i) := Wrap64(Le(Load(e, m, p, AccessSize(i))))]))
        else
          var value: u64 := if Class(i) == 3 then m.r[Src(i)] else Wrap64(i.imm);
          Next(StoreAt(m, p, Bytes(value, AccessSize(i))))
  }

  function Clobber(r: seq<u64>, value: u64): (s: seq<u64>)
    requires |r| == 11
    ensures |s| == 11 && s[0] == value && forall k :: 6 <= k <= 10 ==> s[k] == r[k]
  {
    [value, 0, 0, 0, 0, 0] + r[6..]
  }

  function StepJump(code: seq<Insn>, e: Environment, i: Insn, m: Machine): Outcome
    requires Sized(m) && Dst(i) <= 10 && Src(i) <= 10
  {
    if i.code == 0x95 then Exited(m.r[0])
    else if i.code == 0x85 then
      if i.imm != 1 then Malformed
      else match Find(e, m, m.r[1], m.r[2])
        case Fault => BadLookup
        case Answer(value) => Next(m.(r := Clobber(m.r, value)))
    else
      var narrow := Class(i) == 6;
      var a: u64 := if narrow then Wrap32(m.r[Dst(i)]) else m.r[Dst(i)];
      var b: u64 := if narrow then Wrap32(Operand(i, m)) else Operand(i, m);
      var sa := if narrow then Signed32(a) else Signed64(a);
      var sb := if narrow then Signed32(b) else Signed64(b);
      match Taken(Op(i), a, b, sa, sb)
      case None => Malformed
      case Some(false) => Next(m)
      case Some(true) =>
        var next := m.pc + i.offset;
        if next < 0 || next >= |code| || code[next].code == 0 then Malformed
        else Next(m.(pc := next))
  }

  /** One turn of the interpreter loop. */
  function Step(code: seq<Insn>, e: Environment, m0: Machine): Outcome
    requires Sized(m0) && m0.pc < |code|
  {
    var i := code[m0.pc];
    var m := m0.(pc := m0.pc + 1);
    if Dst(i) > 10 || Src(i) > 10 then Malformed
    else if Wide(i) then StepWide(code, i, m)
    else match Class(i)
      case 4 => StepAlu(i, m)
      case 7 => StepAlu(i, m)
      case 1 => StepMem(e, i, m)
      case 2 => StepMem(e, i, m)
      case 3 => StepMem(e, i, m)
      case 5 => StepJump(code, e, i, m)
      case 6 => StepJump(code, e, i, m)
      case _ => Malformed
  }

  /** Registers, stack and program counter as `bpf_execute` starts. */
  function Boot(maps: seq<Map>): Machine
  {
    Machine(0, [0, CTX, 0, 0, 0, 0, 0, 0, 0, 0, STACK + 512], Zeros(512), maps)
  }

  function Zeros(n: nat): (s: seq<u8>)
    ensures |s| == n && forall i :: 0 <= i < n ==> s[i] == 0
  {
    if n == 0 then [] else Zeros(n - 1) + [0]
  }
}
