/** The loops of the virtual machine: the validator's walk, the interpreter loop, shift-subtract
    division and the longest-prefix scan. */
module BpfMachine {
  import opened Words
  import opened Bits
  import opened BpfModel
  import opened BpfSound

  /** `bpf_validate`. */
  method Validate(code: seq<Insn>) returns (ok: bool)
    ensures ok == Valid(code)
  {
    if |code| == 0 || |code| > MAX_INSNS { return false; }
    var exit, pc := false, 0;
    while pc < |code|
      invariant ValidFrom(code, pc, exit) == ValidFrom(code, 0, false)
      decreases |code| - pc
    {
      if !InsnOk(code, pc) { return false; }
      if IsExit(code[pc]) { exit := true; }
      pc := pc + Width(code[pc]);
    }
    ok := exit;
  }

  /** `divide`: 64-bit division by shifting and subtracting, where doubling the partial remainder
      may carry out of 64 bits.  Division by zero follows section 4.1 of RFC 9669. */
  method Divide(n: u64, d: u64, remainder: bool) returns (v: u64)
    ensures d == 0 ==> v == if remainder then n else 0
    ensures d != 0 ==> v == if remainder then n % d else n / d
    ensures v == if remainder then Remainder(n, d) else Quotient(n, d)
  {
    if d == 0 { return if remainder then n else 0; }
    var q: u64, r: u64, i := 0, 0, 64;
    ghost var top: nat := 0;
    AllBits(n, d);
    while i > 0
      invariant 0 <= i <= 64 && r < d
      invariant Progress(n, d, i, top, q, r)
    {
      var high := r >= 0x8000_0000_0000_0000;
      var bit := Bit(n, i - 1);
      Turn(n, d, i, top, q, r);
      Carry(r, d, bit);
      r := Wrap64(2 * r + bit);
      if high || r >= d {
        r := Wrap64(r - d);
        q := Or(q, Pow2(i - 1));
        top := 2 * top + 1;
      } else {
        top := 2 * top;
      }
      i := i - 1;
    }
    Finish(n, d, top, q, r);
    v := if remainder then r else q;
  }

  /** The carried-out bit and the wrapped subtraction together decide and compute correctly. */
  lemma {:induction false} Carry(r: u64, d: u64, bit: nat)
    requires r < d && bit <= 1
    ensures var s := 2 * r + bit;
      && (r >= 0x8000_0000_0000_0000 || Wrap64(s) >= d <==> s >= d)
      && (if s >= d then Wrap64(Wrap64(s) - d) == s - d < d else Wrap64(s) == s)
  {
  }

  lemma {:induction false} Finish(n: u64, d: u64, top: nat, q: u64, r: nat)
    requires Progress(n, d, 0, top, q, r) && r < d
    ensures n / d == q && n % d == r
  {
    DivUnique(n, d, q, r);
  }

  /** After the bits above `i`: `top` is the quotient of the bits read, `r` their remainder, and `q`
      is `top` in place. */
  ghost predicate Progress(n: nat, d: nat, i: nat, top: nat, q: nat, r: nat)
  {
    q == top * Pow2(i) && n / Pow2(i) == top * d + r
  }

  /** One turn on unbounded numbers: double the remainder, bring down a bit, subtract if it fits. */
  lemma {:induction false} Turn(n: u64, d: nat, i: nat, top: nat, q: u64, r: nat)
    requires 0 < i <= 64 && Progress(n, d, i, top, q, r)
    ensures var s := 2 * r + Bit(n, i - 1);
      && Progress(n, d, i - 1, 2 * top, q, s)
      && Or(q, Pow2(i - 1)) < 0x1_0000_0000_0000_0000
      && (s >= d ==> Progress(n, d, i - 1, 2 * top + 1, Or(q, Pow2(i - 1)), s - d))
  {
    ShiftStep(n, i - 1);
    OrLowBit(top, i - 1);
    OrBound(q, i - 1);
    Spread(top, Pow2(i - 1));
    Spread(top, d);
  }

  lemma {:induction false} AllBits(n: u64, d: nat)
    ensures Progress(n, d, 64, 0, 0, 0)
  {
    Pow2Values();
    DivUnique(n, 0x1_0000_0000_0000_0000, 0, n);
  }

  lemma {:induction false} Spread(top: nat, p: nat)
    ensures (2 * top) * p == top * (2 * p) == 2 * (top * p)
    ensures (2 * top + 1) * p == (2 * top) * p + p
  {
  }

  lemma {:induction false} OrBound(q: u64, k: nat)
    requires k < 64
    ensures Or(q, Pow2(k)) < 0x1_0000_0000_0000_0000
  {
    Pow2Values();
    Pow2Monotone(k, 63);
    BitwiseWidth(q, Pow2(k), 64);
  }

  // ----- the prefix scan

  /** The inner loop: do the first `bits` bits agree? */
  method SameBits(key: seq<u8>, prefix: seq<u8>, bits: nat) returns (same: bool)
    requires bits <= 128 && |key| == 20 && |prefix| == 20
    ensures same == PrefixMatches(key, prefix, bits)
  {
    for b := 0 to bits
      invariant forall k :: 0 <= k < b ==> KeyBit(key, k) == KeyBit(prefix, k)
    {
      if KeyBit(key, b) != KeyBit(prefix, b) { return false; }
    }
    same := true;
  }

  /** The scan of `lookup` over a prefix map's entries. */
  method LongestPrefix(keys: seq<u8>, entries: nat, key: seq<u8>, limit: nat) returns (best: int)
    requires |key| == 20 && entries * 20 <= |keys| && limit <= 128
    ensures best == ScanFrom(keys, entries, key, limit, 0, -1)
  {
    best := -1;
    var bestBits := 0;
    for i := 0 to entries
      invariant -1 <= best < i
      invariant best >= 0 ==> bestBits == PrefixBits(keys, best)
      invariant ScanFrom(keys, entries, key, limit, i, best) == ScanFrom(keys, entries, key, limit, 0, -1)
    {
      var bits := PrefixBits(keys, i);
      if bits <= limit && !(best >= 0 && bits <= bestBits) {
        var same := SameBits(key, Prefix(keys, i), bits);
        if same { best, bestBits := i, bits; }
      }
    }
  }

  // ----- the interpreter

  class Vm {
    const environment: Environment
    var maps: seq<Map>

    constructor (environment: Environment, maps: seq<Map>)
      requires Sized(Boot(maps))
      ensures this.environment == environment && this.maps == maps
    {
      this.environment := environment;
      this.maps := maps;
    }

    /** `bpf_execute`: the run's verdict, and what it left in the maps. */
    method Execute(code: seq<Insn>) returns (ok: bool, value: u64, steps: nat)
      requires Sized(Boot(maps))
      modifies this
      ensures |code| == 0 || |code| > MAX_INSNS ==> !ok && steps == 0 && maps == old(maps)
      ensures 0 < |code| <= MAX_INSNS ==>
        var r := Exec(code, environment, Boot(old(maps)), 0);
        ok == (r.why == Exit) && value == r.value && steps == r.steps && maps == r.final.maps
    {
      ok, value, steps := false, 0, 0;
      if |code| == 0 || |code| > MAX_INSNS { return; }
      var m := Boot(maps);
      while m.pc < |code| && steps < FUEL
        invariant steps <= FUEL && Sized(m) && maps == old(maps) && value == 0 && !ok
        invariant Exec(code, environment, m, steps) == Exec(code, environment, Boot(old(maps)), 0)
        decreases FUEL - steps
      {
        var r := Step(code, environment, m);
        steps := steps + 1;
        match r {
          case Next(n) =>
            StepConfined(code, environment, m);
            m := n;
          case Exited(v) =>
            ok, value, maps := true, v, m.maps;
            return;
          case _ =>
            maps := m.maps;
            return;
        }
      }
      maps := m.maps;
    }
  }
}
