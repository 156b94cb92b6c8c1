/** The validator is sound for the machine: an accepted program never reaches an instruction the
    interpreter rejects for its form, and no program whatever writes outside what it may write. */
module BpfSound {
  import opened Words
  import opened Buffers
  import opened BpfModel

  // ----- instruction starts

  /** `pc` is reached from `at` by whole instructions. */
  predicate StartsAt(code: seq<Insn>, at: nat, pc: nat)
    decreases |code| - at
  {
    at == pc || (at < pc && at < |code| && StartsAt(code, at + Width(code[at]), pc))
  }

  predicate IsStart(code: seq<Insn>, pc: nat) { StartsAt(code, 0, pc) }

  /** On an accepted program the interpreter's test `code != 0` marks exactly the real starts, and
      every one of them passed its own check. */
  lemma {:induction false} ValidStarts(code: seq<Insn>, at: nat, exit: bool, pc: nat)
    requires ValidFrom(code, at, exit) && at <= pc < |code|
    ensures StartsAt(code, at, pc) <==> code[pc].code != 0
    ensures StartsAt(code, at, pc) ==> InsnOk(code, pc)
    decreases |code| - at
  {
    if at < pc {
      var next := at + Width(code[at]);
      if pc < next {
        assert pc == at + 1 && WideOk(code, at);
      } else {
        ValidStarts(code, next, exit || IsExit(code[at]), pc);
      }
    }
  }

  /** The slot after a whole instruction is a start or the end. */
  lemma {:induction false} NextStart(code: seq<Insn>, at: nat, pc: nat)
    requires StartsAt(code, at, pc) && pc < |code|
    ensures StartsAt(code, at, pc + Width(code[pc]))
    decreases |code| - at
  {
    if at < pc {
      NextStart(code, at + Width(code[at]), pc);
    } else {
      assert StartsAt(code, pc + Width(code[pc]), pc + Width(code[pc]));
    }
  }

  /** A program counter the interpreter may have. */
  predicate PcOk(code: seq<Insn>, pc: nat) { pc <= |code| && IsStart(code, pc) }

  // ----- one step of an accepted program

  lemma {:induction false} AluKnown(i: Insn, a: u64, b: u64, wide: bool)
    requires AluOk(i) && Op(i) != 0xd0
    ensures Alu(Op(i), a, b, wide).Some?
  {
  }

  lemma {:induction false} JumpKnown(code: seq<Insn>, pc: nat, a: u64, b: u64, sa: int, sb: int)
    requires pc < |code| && JumpOk(code, pc) && code[pc].code != 0x85 && code[pc].code != 0x95
    ensures Taken(Op(code[pc]), a, b, sa, sb).Some?
  {
  }

  lemma {:induction false} WideSafe(code: seq<Insn>, m: Machine)
    requires Sized(m) && m.pc < |code| && Dst(code[m.pc]) <= 10 && WideOk(code, m.pc)
    ensures var r := StepWide(code, code[m.pc], m.(pc := m.pc + 1)); r.Next? && r.m.pc == m.pc + 2
  {
  }

  lemma {:induction false} AluSafe(i: Insn, m: Machine)
    requires Sized(m) && Dst(i) <= 10 && Src(i) <= 10 && AluOk(i)
    ensures StepAlu(i, m).Next? && StepAlu(i, m).m.pc == m.pc
  {
    if Op(i) != 0xd0 {
      var wide := Class(i) == 7;
      AluKnown(i, if wide then m.r[Dst(i)] else Wrap32(m.r[Dst(i)]),
               if wide then Operand(i, m) else Wrap32(Operand(i, m)), wide);
    }
  }

  lemma {:induction false} MemSafe(e: Environment, i: Insn, m: Machine)
    requires Sized(m) && Dst(i) <= 10 && Src(i) <= 10 && MemOk(i)
    ensures !StepMem(e, i, m).Malformed? && !StepMem(e, i, m).Exited?
    ensures StepMem(e, i, m).Next? ==> StepMem(e, i, m).m.pc == m.pc
  {
  }

  lemma {:induction false} JumpSafe(code: seq<Insn>, e: Environment, m: Machine)
    requires Sized(m) && m.pc < |code| && JumpOk(code, m.pc)
    requires Dst(code[m.pc]) <= 10 && Src(code[m.pc]) <= 10
    ensures var r := StepJump(code, e, code[m.pc], m.(pc := m.pc + 1));
      && !r.Malformed?
      && (r.Next? ==> r.m.pc == m.pc + 1 || (r.m.pc < |code| && code[r.m.pc].code != 0))
  {
    var i := code[m.pc];
    if i.code != 0x85 && i.code != 0x95 {
      var narrow := Class(i) == 6;
      var a: u64 := if narrow then Wrap32(m.r[Dst(i)]) else m.r[Dst(i)];
      var b: u64 := if narrow then Wrap32(Operand(i, m)) else Operand(i, m);
      JumpKnown(code, m.pc, a, b, if narrow then Signed32(a) else Signed64(a),
                if narrow then Signed32(b) else Signed64(b));
    }
  }

  /** An accepted program's step from a real start is never malformed and stays on real starts. */
  lemma {:induction false} StepSafe(code: seq<Insn>, e: Environment, m: Machine)
    requires Sized(m) && Valid(code) && PcOk(code, m.pc) && m.pc < |code|
    ensures !Step(code, e, m).Malformed?
    ensures Step(code, e, m).Next? ==> PcOk(code, Step(code, e, m).m.pc)
  {
    ValidStarts(code, 0, false, m.pc);
    NextStart(code, 0, m.pc);
    StepStays(code, e, m);
    var r := Step(code, e, m);
    if r.Next? && r.m.pc < |code| && code[r.m.pc].code != 0 { ValidStarts(code, 0, false, r.m.pc); }
  }

  /** An instruction that passed its check is executed, and the next one is the following slot or a
      slot with a nonzero code. */
  lemma {:induction false} StepStays(code: seq<Insn>, e: Environment, m: Machine)
    requires Sized(m) && m.pc < |code| && InsnOk(code, m.pc)
    ensures var r := Step(code, e, m);
      && !r.Malformed?
      && (r.Next? ==> r.m.pc == m.pc + Width(code[m.pc]) || (r.m.pc < |code| && code[r.m.pc].code != 0))
  {
    var i := code[m.pc];
    var m1 := m.(pc := m.pc + 1);
    if Wide(i) {
      WideSafe(code, m);
    } else if Class(i) == 4 || Class(i) == 7 {
      AluSafe(i, m1);
    } else if Class(i) == 5 || Class(i) == 6 {
      JumpSafe(code, e, m);
    } else {
      MemSafe(e, i, m1);
    }
  }

  // ----- what any program can change

  predicate SameMap(a: Map, b: Map)
  {
    && b.values.Some? == a.values.Some?
    && (a.values.Some? ==> |b.values.value| == |a.values.value|)
    && b == a.(values := b.values)
    && (!a.writable ==> b == a)
  }

  /** Only stack bytes, registers below r10 and values of writable maps may differ. */
  predicate Confined(a: Machine, b: Machine)
  {
    && |b.r| == |a.r| && |b.stack| == |a.stack| && |b.maps| == |a.maps|
    && (|a.r| == 11 ==> b.r[10] == a.r[10])
    && forall i :: 0 <= i < |a.maps| ==> SameMap(a.maps[i], b.maps[i])
  }

  lemma {:induction false} ConfinedSized(a: Machine, b: Machine)
    requires Sized(a) && Confined(a, b)
    ensures Sized(b)
  {
    forall i | 0 <= i < |b.maps| ensures MapSized(b.maps[i]) {
      assert MapSized(a.maps[i]) && SameMap(a.maps[i], b.maps[i]);
    }
  }

  /** A granted write lies on the stack or inside one value of a writable map. */
  lemma {:induction false} WritePlace(e: Environment, m: Machine, address: u64, size: nat)
    requires Sized(m) && Translate(e, m.maps, address, size, true).Some?
    ensures match Translate(e, m.maps, address, size, true).value
      case OnStack(at) => at + size <= 512
      case InValue(id, at) =>
        && id < MAPS && m.maps[id].writable && m.maps[id].values.Some? && 0 < m.maps[id].capacity
        && exists k :: 0 <= k < m.maps[id].capacity && InsideValue(m.maps[id], k, at, size)
      case _ => false
  {
    var p := Translate(e, m.maps, address, size, true).value;
    if p.InValue? {
      var k := (address - VALUES) % 0x10_0000 / 256;
      assert InsideValue(m.maps[p.id], k, p.at, size);
    }
  }

  /** Bytes `at .. at + size` belong to value number `k`. */
  predicate InsideValue(m: Map, k: nat, at: nat, size: nat)
  {
    k * m.valueSize <= at && at + size <= (k + 1) * m.valueSize
  }

  lemma {:induction false} StoreConfined(m: Machine, p: Place, text: seq<u8>)
    requires Sized(m) && (p.InValue? ==> p.id < MAPS && m.maps[p.id].writable)
    ensures Confined(m, StoreAt(m, p, text))
  {
  }

  lemma {:induction false} MemConfined(e: Environment, i: Insn, m: Machine)
    requires Sized(m) && Dst(i) <= 10 && Src(i) <= 10 && StepMem(e, i, m).Next?
    ensures Confined(m, StepMem(e, i, m).m)
  {
    if Class(i) != 1 {
      var address := Wrap64(m.r[Dst(i)] + i.offset);
      WritePlace(e, m, address, AccessSize(i));
      var p := Translate(e, m.maps, address, AccessSize(i), true).value;
      var value: u64 := if Class(i) == 3 then m.r[Src(i)] else Wrap64(i.imm);
      StoreConfined(m, p, Bytes(value, AccessSize(i)));
    }
  }

  /** One step of any program, valid or not, is confined. */
  lemma {:induction false} StepConfined(code: seq<Insn>, e: Environment, m: Machine)
    requires Sized(m) && m.pc < |code| && Step(code, e, m).Next?
    ensures Confined(m, Step(code, e, m).m) && Sized(Step(code, e, m).m)
  {
    var i := code[m.pc];
    if !Wide(i) && Class(i) in {1, 2, 3} { MemConfined(e, i, m.(pc := m.pc + 1)); }
    ConfinedSized(m, Step(code, e, m).m);
  }

  lemma {:induction false} ConfinedTrans(a: Machine, b: Machine, c: Machine)
    requires Confined(a, b) && Confined(b, c)
    ensures Confined(a, c)
  {
    forall i | 0 <= i < |a.maps| ensures SameMap(a.maps[i], c.maps[i]) {
      assert SameMap(a.maps[i], b.maps[i]) && SameMap(b.maps[i], c.maps[i]);
    }
  }

  // ----- whole runs

  datatype Why = Exit | BadForm | BadMemory | LookupFailed | OffEnd | OutOfFuel

  datatype Result = Result(why: Why, value: u64, steps: nat, final: Machine)

  /** The interpreter loop with `steps` already taken. */
  function Exec(code: seq<Insn>, e: Environment, m: Machine, steps: nat): (r: Result)
    requires Sized(m) && steps <= FUEL
    ensures Sized(r.final)
    decreases FUEL - steps
  {
    if m.pc >= |code| then Result(OffEnd, 0, steps, m)
    else if steps == FUEL then Result(OutOfFuel, 0, steps, m)
    else match Step(code, e, m)
      case Next(n) => StepConfined(code, e, m); Exec(code, e, n, steps + 1)
      case Exited(value) => Result(Exit, value, steps + 1, m)
      case Malformed => Result(BadForm, 0, steps + 1, m)
      case BadAccess => Result(BadMemory, 0, steps + 1, m)
      case BadLookup => Result(LookupFailed, 0, steps + 1, m)
  }

  /** The machine after exactly `k` steps, if the run gets that far. */
  function After(code: seq<Insn>, e: Environment, m: Machine, k: nat): (r: Option<Machine>)
    requires Sized(m)
    ensures r.Some? ==> Sized(r.value)
  {
    if k == 0 then Some(m)
    else match After(code, e, m, k - 1)
      case None => None
      case Some(n) =>
        if n.pc >= |code| || !Step(code, e, n).Next? then None
        else StepConfined(code, e, n); Some(Step(code, e, n).m)
  }

  /** Soundness of the validator: on an accepted program, in every step of every run the program
      counter is at a real instruction start (or just past the end) and the next step is not
      rejected for its form. */
  lemma {:induction false} Soundness(code: seq<Insn>, e: Environment, m: Machine, k: nat)
    requires Sized(m) && Valid(code) && m.pc == 0 && After(code, e, m, k).Some?
    ensures var n := After(code, e, m, k).value;
      && PcOk(code, n.pc)
      && (n.pc < |code| ==> code[n.pc].code != 0 && !Step(code, e, n).Malformed?)
  {
    if k > 0 {
      Soundness(code, e, m, k - 1);
      StepSafe(code, e, After(code, e, m, k - 1).value);
    }
    var n := After(code, e, m, k).value;
    if n.pc < |code| {
      ValidStarts(code, 0, false, n.pc);
      StepSafe(code, e, n);
    }
  }

  lemma {:induction false} ExecSoundFrom(code: seq<Insn>, e: Environment, m: Machine, steps: nat)
    requires Sized(m) && Valid(code) && PcOk(code, m.pc) && steps <= FUEL
    ensures Exec(code, e, m, steps).why != BadForm
    decreases FUEL - steps
  {
    if m.pc < |code| && steps < FUEL {
      StepSafe(code, e, m);
      match Step(code, e, m)
      case Next(n) => StepConfined(code, e, m); ExecSoundFrom(code, e, n, steps + 1);
      case _ =>
    }
  }

  /** `bpf_execute` on an accepted program fails only for a bad access, a failed lookup, running
      off the end or exhausted fuel. */
  lemma {:induction false} ExecSound(code: seq<Insn>, e: Environment, maps: seq<Map>)
    requires Valid(code) && Sized(Boot(maps))
    ensures Exec(code, e, Boot(maps), 0).why != BadForm
    ensures Exec(code, e, Boot(maps), 0).steps <= FUEL
  {
    ExecSoundFrom(code, e, Boot(maps), 0);
    ExecSteps(code, e, Boot(maps), 0);
  }

  lemma {:induction false} ExecSteps(code: seq<Insn>, e: Environment, m: Machine, steps: nat)
    requires Sized(m) && steps <= FUEL
    ensures steps <= Exec(code, e, m, steps).steps <= FUEL
    decreases FUEL - steps
  {
    if m.pc < |code| && steps < FUEL {
      match Step(code, e, m)
      case Next(n) => StepConfined(code, e, m); ExecSteps(code, e, n, steps + 1);
      case _ =>
    }
  }

  /** Confinement of any program, accepted or not: r10, every read-only map and every map's shape
      come out of the run as they went in.  Packet and context are not part of the machine. */
  lemma {:induction false} ExecConfined(code: seq<Insn>, e: Environment, m: Machine, steps: nat)
    requires Sized(m) && steps <= FUEL
    ensures Confined(m, Exec(code, e, m, steps).final)
    decreases FUEL - steps
  {
    if m.pc < |code| && steps < FUEL {
      match Step(code, e, m)
      case Next(n) =>
        StepConfined(code, e, m);
        ExecConfined(code, e, n, steps + 1);
        ConfinedTrans(m, n, Exec(code, e, n, steps + 1).final);
      case _ =>
    }
  }
}
