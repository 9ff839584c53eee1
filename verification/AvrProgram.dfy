/**
  Programs in flash, decoded and executed step by step: what the arithmetic instructions compute on
  numbers of several bytes in neighbouring registers.
 */
module AvrProgram {
  import opened CInt
  import opened AvrFlags
  import opened AvrArith
  import opened AvrStack
  import opened AvrCpu
  import opened AvrOpcode
  import opened AvrDecode

  // ----- straight programs ------------------------------------------------------------------

  /** An arithmetic instruction and its registers; the shifts use the first only. */
  datatype Instruction = Instruction(op: Opcode, rd: nat, rr: nat)

  predicate InRegisters(i: Instruction) {
    Arithmetic(i.op) && i.rd < 32 && i.rr < 32
  }

  predicate IsProgram(program: seq<Instruction>) {
    forall k :: 0 <= k < |program| ==> InRegisters(program[k])
  }

  predicate Shift(op: Opcode) {
    op == LSR || op == ASR || op == ROR
  }

  function Encoded(i: Instruction): nat
    requires InRegisters(i)
  {
    if Shift(i.op) then EncodeOneRegister(i.op, i.rd) else EncodeTwoRegister(i.op, i.rd, i.rr)
  }

  /** From word `p` on, flash holds a program. */
  predicate Holds(flash: seq<byte>, program_size: nat, p: nat, program: seq<Instruction>)
    requires InFlash(flash, program_size) && IsProgram(program)
  {
    && p + |program| <= Words(program_size)
    && forall k :: 0 <= k < |program| ==> Word(flash, p + k) == Encoded(program[k])
  }

  lemma HoldsFirst(flash: seq<byte>, program_size: nat, p: nat, program: seq<Instruction>)
    requires InFlash(flash, program_size) && IsProgram(program) && program != []
    requires Holds(flash, program_size, p, program)
    ensures p < Words(program_size) && Word(flash, p) == Encoded(program[0])
    ensures IsProgram(program[1..]) && Holds(flash, program_size, p + 1, program[1..])
  {
    hide Encoded, Word;
    assert Word(flash, p + 0) == Encoded(program[0]);
    forall k | 0 <= k < |program[1..]|
      ensures Word(flash, p + 1 + k) == Encoded(program[1..][k])
    {
      assert Word(flash, p + (k + 1)) == Encoded(program[k + 1]);
    }
  }

  /** What a program does to memory, instruction by instruction. */
  function RunOf(d: Ram, program: seq<Instruction>): Ram
    requires IsProgram(program)
    decreases |program|
  {
    if program == [] then d else RunOf(Executed(d, program[0].op, program[0].rd, program[0].rr), program[1..])
  }

  /** The cycles of a program's instructions together. */
  function CyclesOf(isa: Isa, program: seq<Instruction>): nat {
    if program == [] then 0 else isa.cycles(program[0].op) + CyclesOf(isa, program[1..])
  }

  /** The instruction set executes the arithmetic instructions, each one word long, as the source does. */
  ghost predicate Computes(isa: Isa) {
    && (forall op: Opcode :: Arithmetic(op) ==> isa.size(op) == 1)
    && forall dop: DecodedOp, core: Core, flash: seq<byte>, skip: nat {:trigger isa.func(dop, core, flash, skip)} ::
         Arithmetic(dop.index) && dop.oper1 < 32 && dop.oper2 < MAX_RAM_SIZE && |core.data| == MAX_RAM_SIZE ==>
           isa.func(dop, core, flash, skip) == Running(core.(data := Executed(core.data, dop.index, dop.oper1, dop.oper2)))
  }

  lemma DecodeEncoded(i: Instruction, opcode2: nat)
    requires InRegisters(i)
    ensures var dop := DecodeOpcode(Encoded(i), opcode2);
            && dop.index == i.op && dop.oper1 == i.rd
            && dop.oper2 == if Shift(i.op) then opcode2 else i.rr
  {
    hide DecodeOpcode, EncodeTwoRegister, EncodeOneRegister;
    if Shift(i.op) {
      DecodeOneRegister(i.op, i.rd, opcode2);
    } else {
      DecodeTwoRegister(i.op, i.rd, i.rr, opcode2);
    }
  }

  /** A shift does not look at its second operand. */
  lemma OneOperand(d: Ram, op: Opcode, rd: nat, rr: nat, other: nat)
    requires Shift(op) && rd < 32 && rr < MAX_RAM_SIZE && other < MAX_RAM_SIZE
    ensures Executed(d, op, rd, rr) == Executed(d, op, rd, other)
  {
    hide StepOf, StatusIn, Written;
    ShiftStep(op, StatusIn(d), d[rd], d[rr], d[other]);
  }

  lemma ShiftStep(op: Opcode, sreg: Sreg, a: byte, b: byte, c: byte)
    requires Shift(op)
    ensures StepOf(op, sreg, a, b) == StepOf(op, sreg, a, c)
  {
    hide RotateStep, AddStep, SubStep;
  }

  lemma ComputesHere(isa: Isa, dop: DecodedOp, flash: seq<byte>)
    requires Computes(isa) && Arithmetic(dop.index) && dop.oper1 < 32 && dop.oper2 < MAX_RAM_SIZE
    ensures isa.size(dop.index) == 1
    ensures forall core: Core, skip: nat {:trigger isa.func(dop, core, flash, skip)} :: |core.data| == MAX_RAM_SIZE ==>
              isa.func(dop, core, flash, skip) == Running(core.(data := Executed(core.data, dop.index, dop.oper1, dop.oper2)))
  {
    hide Executed, Arithmetic;
  }

  /** One step of the machine on an arithmetic instruction. */
  lemma ProgramStep(isa: Isa, flash: seq<byte>, program_size: nat, core: Core, i: Instruction)
    requires Computes(isa) && InFlash(flash, program_size) && core.pc < Words(program_size)
    requires InRegisters(i) && |core.data| == MAX_RAM_SIZE && Word(flash, core.pc) == Encoded(i)
    ensures var step := DirectStep(isa, flash, program_size, core);
            && step.Running? && step.core.pc == core.pc + 1 && step.core.data == Executed(core.data, i.op, i.rd, i.rr)
            && step.core.cycles == (core.cycles + isa.cycles(i.op)) % 0x1_0000_0000
  {
    hide DecodeOpcode, Encoded, Executed, Computes, Arithmetic, Word, Words, DirectFetch, DirectStep, StepOf;
    InsideFlash(flash, program_size, core.pc);
    var behind := Word(flash, core.pc + 1);
    Fetched(flash, program_size, core.pc);
    DecodeEncoded(i, behind);
    NeverDummy(Encoded(i), behind);
    StepPerforms(isa, flash, program_size, core);
    OperandsDo(isa, flash, core, i, behind, DirectFetch(flash, program_size, core.pc));
  }

  /** The decoded instruction does what the encoded one does. */
  lemma OperandsDo(isa: Isa, flash: seq<byte>, core: Core, i: Instruction, behind: nat, dop: DecodedOp)
    requires Computes(isa) && InRegisters(i) && |core.data| == MAX_RAM_SIZE && behind < MAX_RAM_SIZE
    requires dop == DecodedOp(i.op, i.rd, if Shift(i.op) then behind else i.rr)
    ensures isa.size(dop.index) == 1
    ensures forall skip: nat {:trigger isa.func(dop, Advanced(isa, core, dop), flash, skip)} ::
              var r := isa.func(dop, Advanced(isa, core, dop), flash, skip);
              && r.Running? && r.core.pc == core.pc + 1 && r.core.data == Executed(core.data, i.op, i.rd, i.rr)
              && r.core.cycles == (core.cycles + isa.cycles(i.op)) % 0x1_0000_0000
  {
    hide Executed, Computes, Arithmetic;
    ComputesHere(isa, dop, flash);
    if Shift(i.op) {
      OneOperand(core.data, i.op, i.rd, i.rr, behind);
    }
  }

  /**
    A step on any instruction first moves the counter by its size and adds its cycles, modulo 2^32, and
    then performs its function, which learns the size of the instruction the counter then points to.
   */
  lemma StepPerforms(isa: Isa, flash: seq<byte>, program_size: nat, core: Core)
    requires InFlash(flash, program_size)
    ensures var dop := DirectFetch(flash, program_size, core.pc);
            var advanced := Core(core.pc + isa.size(dop.index), (core.cycles + isa.cycles(dop.index)) % 0x1_0000_0000, core.data);
            advanced == Advanced(isa, core, dop)
            && (dop.index != dummy ==>
                  DirectStep(isa, flash, program_size, core)
                  == isa.func(dop, advanced, flash, isa.size(DirectFetch(flash, program_size, advanced.pc).index)))
  {
    hide DirectFetch;
  }

  lemma InsideFlash(flash: seq<byte>, program_size: nat, pc: nat)
    requires InFlash(flash, program_size) && pc < Words(program_size)
    ensures 2 * (pc + 1) + 1 < |flash|
  {
  }

  lemma Fetched(flash: seq<byte>, program_size: nat, pc: nat)
    requires InFlash(flash, program_size) && pc < Words(program_size)
    ensures DirectFetch(flash, program_size, pc) == DecodeOpcode(Word(flash, pc), Word(flash, pc + 1))
    ensures Word(flash, pc + 1) < MAX_RAM_SIZE
  {
    hide DecodeOpcode;
  }

  /**
    A straight program of arithmetic instructions in flash, fetched, decoded and executed: the machine
    ends behind it with memory as the instructions one by one leave it.
   */
  lemma {:induction false} ProgramRuns(isa: Isa, flash: seq<byte>, program_size: nat, core: Core, program: seq<Instruction>)
    requires Computes(isa) && InFlash(flash, program_size) && IsProgram(program)
    requires Holds(flash, program_size, core.pc, program) && |core.data| == MAX_RAM_SIZE
    ensures var run := DirectRun(isa, flash, program_size, core, |program|);
            && run.Running? && run.core.pc == core.pc + |program| && run.core.data == RunOf(core.data, program)
            && run.core.cycles % 0x1_0000_0000 == (core.cycles + CyclesOf(isa, program)) % 0x1_0000_0000
    decreases |program|
  {
    hide DirectStep, Computes, Encoded, Executed;
    if program != [] {
      HoldsFirst(flash, program_size, core.pc, program);
      ProgramStep(isa, flash, program_size, core, program[0]);
      var next := DirectStep(isa, flash, program_size, core).core;
      ProgramRuns(isa, flash, program_size, next, program[1..]);
      AddedModulo(core.cycles, isa.cycles(program[0].op), CyclesOf(isa, program[1..]));
    }
  }

  lemma AddedModulo(a: nat, b: nat, c: nat)
    ensures ((a + b) % 0x1_0000_0000 + c) % 0x1_0000_0000 == (a + (b + c)) % 0x1_0000_0000
  {
  }

  // ----- chains over neighbouring registers -------------------------------------------------

  /** One instruction on `n` pairs of neighbouring registers, upwards. */
  function Upwards(op: Opcode, d: nat, r: nat, n: nat): (program: seq<Instruction>)
    requires Arithmetic(op) && d + n <= 32 && r + n <= 32
    ensures |program| == n && IsProgram(program)
    decreases n
  {
    if n == 0 then [] else [Instruction(op, d, r)] + Upwards(op, d + 1, r + 1, n - 1)
  }

  /** The instruction for the lowest bytes and then the one for the higher ones. */
  function Chain(first: Opcode, op: Opcode, d: nat, r: nat, n: nat): (program: seq<Instruction>)
    requires Arithmetic(first) && Arithmetic(op) && n >= 1 && d + n <= 32 && r + n <= 32
    ensures |program| == n && IsProgram(program)
  {
    [Instruction(first, d, r)] + Upwards(op, d + 1, r + 1, n - 1)
  }

  /** The bytes of neighbouring registers, the lowest first. */
  function Registers(d: Ram, from: nat, n: nat): (bytes: seq<byte>)
    requires from + n <= 32
    ensures |bytes| == n
  {
    d[from..from + n]
  }

  /** A chain of steps on bytes, the lowest first. */
  function StepChain(op: Opcode, sreg: Sreg, a: seq<byte>, b: seq<byte>): (seq<byte>, Sreg)
    requires Arithmetic(op) && |a| == |b|
    decreases a
  {
    if a == [] then ([], sreg)
    else
      var (r0, next) := StepOf(op, sreg, a[0], b[0]);
      var (rest, last) := StepChain(op, next, a[1..], b[1..]);
      ([r0] + rest, last)
  }

  /** A chain whose first step is of its own kind. */
  function FirstChain(first: Opcode, op: Opcode, sreg: Sreg, a: seq<byte>, b: seq<byte>): (seq<byte>, Sreg)
    requires Arithmetic(first) && Arithmetic(op) && |a| == |b| > 0
  {
    var (r0, next) := StepOf(first, sreg, a[0], b[0]);
    var (rest, last) := StepChain(op, next, a[1..], b[1..]);
    ([r0] + rest, last)
  }

  lemma StepChainFirst(op: Opcode, sreg: Sreg, a: seq<byte>, b: seq<byte>)
    requires Arithmetic(op) && |a| == |b| > 0
    ensures StepChain(op, sreg, a, b) == FirstChain(op, op, sreg, a, b)
  {
    hide StepOf;
  }

  lemma SumChain(sreg: Sreg, a: seq<byte>, b: seq<byte>)
    requires |a| == |b| > 0
    ensures FirstChain(ADD, ADC, sreg, a, b) == AddChain(sreg, a, b)
  {
    hide AddStep, StepChain;
    StepChainOfAdc(AddStep(sreg, a[0], b[0], 0).1, a[1..], b[1..]);
  }

  lemma DifferenceChain(first: Opcode, op: Opcode, sreg: Sreg, a: seq<byte>, b: seq<byte>)
    requires |a| == |b| > 0 && ((first == SUB && op == SBC) || (first == CP && op == CPC))
    ensures FirstChain(first, op, sreg, a, b) == SubChain(sreg, a, b)
  {
    hide SubStep, StepChain;
    StepChainOfSbc(op, SubStep(sreg, a[0], b[0], 0, false).1, a[1..], b[1..]);
  }

  lemma {:induction false} StepChainOfAdc(sreg: Sreg, a: seq<byte>, b: seq<byte>)
    requires |a| == |b|
    ensures StepChain(ADC, sreg, a, b) == AdcChain(sreg, a, b)
    decreases a
  {
    hide AddStep;
    if a != [] {
      StepChainOfAdc(AddStep(sreg, a[0], b[0], Carry(sreg)).1, a[1..], b[1..]);
    }
  }

  lemma {:induction false} StepChainOfSbc(op: Opcode, sreg: Sreg, a: seq<byte>, b: seq<byte>)
    requires |a| == |b| && (op == SBC || op == CPC)
    ensures StepChain(op, sreg, a, b) == SbcChain(sreg, a, b)
    decreases a
  {
    hide SubStep;
    if a != [] {
      StepChainOfSbc(op, SubStep(sreg, a[0], b[0], Carry(sreg), true).1, a[1..], b[1..]);
    }
  }

  /** Nothing but the status register and, for instructions that keep their byte, the registers differs. */
  predicate OnlyRegisters(d: Ram, e: Ram, from: nat, n: nat, kept: bool) {
    forall i :: 0 <= i < MAX_RAM_SIZE && i != SREG && !(kept && from <= i < from + n) ==> e[i] == d[i]
  }

  predicate Keeps(op: Opcode) {
    op != CP && op != CPC
  }

  /** The operands are not overwritten before they are read. */
  predicate Apart(kept: bool, d: nat, r: nat, n: nat) {
    !kept || d <= r || r + n <= d
  }

  lemma ExecutedMeaning(d: Ram, op: Opcode, rd: nat, rr: nat)
    requires Arithmetic(op) && rd < 32 && rr < 32
    ensures var e, step := Executed(d, op, rd, rr), StepOf(op, StatusIn(d), d[rd], d[rr]);
            && StatusIn(e) == step.1 && OnlyRegisters(d, e, rd, 1, Keeps(op))
            && (Keeps(op) ==> e[rd] == step.0)
  {
    hide StepOf, Written, StatusIn;
    WrittenMeaning(d, StepOf(op, StatusIn(d), d[rd], d[rr]), rd, Keeps(op));
  }

  /** The registers behind the first pair still hold what they held. */
  lemma RestIsThere(d: Ram, e: Ram, op: Opcode, rd: nat, rr: nat, n: nat)
    requires n >= 1 && rd + n <= 32 && rr + n <= 32 && Apart(Keeps(op), rd, rr, n)
    requires OnlyRegisters(d, e, rd, 1, Keeps(op))
    ensures Apart(Keeps(op), rd + 1, rr + 1, n - 1)
    ensures Registers(e, rd + 1, n - 1) == Registers(d, rd, n)[1..]
    ensures Registers(e, rr + 1, n - 1) == Registers(d, rr, n)[1..]
  {
  }

  lemma FirstAndRest(d: Ram, from: nat, n: nat)
    requires n >= 1 && from + n <= 32
    ensures Registers(d, from, n) == [d[from]] + Registers(d, from + 1, n - 1)
  {
  }

  lemma {:induction false} UpwardsRun(d: Ram, op: Opcode, rd: nat, rr: nat, n: nat)
    requires Arithmetic(op) && rd + n <= 32 && rr + n <= 32 && Apart(Keeps(op), rd, rr, n)
    ensures var e := RunOf(d, Upwards(op, rd, rr, n));
            var (bytes, f) := StepChain(op, StatusIn(d), Registers(d, rd, n), Registers(d, rr, n));
            && StatusIn(e) == f && OnlyRegisters(d, e, rd, n, Keeps(op))
            && (Keeps(op) ==> Registers(e, rd, n) == bytes)
    decreases n
  {
    hide StatusIn, StepOf, Executed, OnlyRegisters, Registers, Apart, Keeps, RunOf, Upwards, Chain, StepChain, FirstChain;
    if n == 0 {
      EmptyRun(d, op, rd, rr);
    } else {
      UpwardsIsChain(op, rd, rr, n);
      StepChainFirst(op, StatusIn(d), Registers(d, rd, n), Registers(d, rr, n));
      FirstRuns(d, op, op, rd, rr, n);
    }
  }

  lemma UpwardsIsChain(op: Opcode, rd: nat, rr: nat, n: nat)
    requires Arithmetic(op) && n >= 1 && rd + n <= 32 && rr + n <= 32
    ensures Upwards(op, rd, rr, n) == Chain(op, op, rd, rr, n)
  {
  }

  lemma EmptyRun(d: Ram, op: Opcode, rd: nat, rr: nat)
    requires Arithmetic(op) && rd <= 32 && rr <= 32
    ensures Upwards(op, rd, rr, 0) == [] && RunOf(d, []) == d && OnlyRegisters(d, d, rd, 0, Keeps(op))
    ensures StepChain(op, StatusIn(d), Registers(d, rd, 0), Registers(d, rr, 0)) == ([], StatusIn(d))
    ensures Registers(d, rd, 0) == []
  {
    hide StatusIn;
  }

  /** An instruction on the lowest bytes, and what the rest of the chain makes of it. */
  lemma {:induction false} FirstRuns(d: Ram, first: Opcode, op: Opcode, rd: nat, rr: nat, n: nat)
    requires Arithmetic(first) && Arithmetic(op) && Keeps(first) == Keeps(op)
    requires n >= 1 && rd + n <= 32 && rr + n <= 32 && Apart(Keeps(op), rd, rr, n)
    ensures var e, a, b := RunOf(d, Chain(first, op, rd, rr, n)), Registers(d, rd, n), Registers(d, rr, n);
            var (bytes, f) := FirstChain(first, op, StatusIn(d), a, b);
            && StatusIn(e) == f && OnlyRegisters(d, e, rd, n, Keeps(op))
            && (Keeps(op) ==> Registers(e, rd, n) == bytes)
    decreases n, 0
  {
    hide StatusIn, StepOf, Executed, OnlyRegisters, Registers, Apart, Keeps, StepChain;
    var e1 := Executed(d, first, rd, rr);
    ExecutedMeaning(d, first, rd, rr);
    RestIsThere(d, e1, op, rd, rr, n);
    UpwardsRun(e1, op, rd + 1, rr + 1, n - 1);
    var program := Chain(first, op, rd, rr, n);
    assert program[1..] == Upwards(op, rd + 1, rr + 1, n - 1);
    var e := RunOf(e1, program[1..]);
    OnlyBoth(d, e1, e, rd, n, Keeps(op));
    FirstAndRest(d, rd, n);
    FirstAndRest(d, rr, n);
    FirstAndRest(e, rd, n);
  }

  lemma OnlyBoth(d: Ram, e: Ram, f: Ram, from: nat, n: nat, kept: bool)
    requires n >= 1 && from + n <= 32
    requires OnlyRegisters(d, e, from, 1, kept) && OnlyRegisters(e, f, from + 1, n - 1, kept)
    ensures OnlyRegisters(d, f, from, n, kept) && f[from] == e[from]
  {
  }

  // ----- what the programs compute ----------------------------------------------------------

  /** The machine is behind `n` instructions, and memory is as given. */
  predicate EndsWith(run: Outcome, core: Core, n: nat, e: Ram) {
    run.Running? && run.core.pc == core.pc + n && run.core.data == e
  }

  /**
    `ADD` then `ADC` on `n` neighbouring registers, as a program in flash: the machine ends behind it
    with the n-byte sum in the first registers, C its carry and V its signed overflow, and nothing
    else changed but the status register.
   */
  lemma SumProgram(isa: Isa, flash: seq<byte>, program_size: nat, core: Core, d: nat, r: nat, n: nat)
    requires Computes(isa) && InFlash(flash, program_size) && |core.data| == MAX_RAM_SIZE
    requires n >= 1 && d + n <= 32 && r + n <= 32 && Apart(true, d, r, n)
    requires Holds(flash, program_size, core.pc, Chain(ADD, ADC, d, r, n))
    ensures var e := RunOf(core.data, Chain(ADD, ADC, d, r, n));
            var a, b, sum := Registers(core.data, d, n), Registers(core.data, r, n), Registers(e, d, n);
            && EndsWith(DirectRun(isa, flash, program_size, core, n), core, n, e)
            && Number(sum) == (Number(a) + Number(b)) % Modulus(n)
            && (C in StatusIn(e) <==> Number(a) + Number(b) >= Modulus(n))
            && (V in StatusIn(e) <==> !InRange(SignedNumber(a) + SignedNumber(b), n))
            && OnlyRegisters(core.data, e, d, n, true)
  {
    hide DirectRun, Computes, Holds, RunOf, Chain, Apart, StatusIn, OnlyRegisters, Registers, Number, SignedNumber, InRange, Modulus;
    ProgramRuns(isa, flash, program_size, core, Chain(ADD, ADC, d, r, n));
    SumOfChain(core.data, d, r, n);
  }

  lemma KeptBySums()
    ensures Keeps(ADD) && Keeps(ADC) && Keeps(SUB) && Keeps(SBC)
  {
  }

  lemma SumOfChain(m: Ram, d: nat, r: nat, n: nat)
    requires n >= 1 && d + n <= 32 && r + n <= 32 && Apart(true, d, r, n)
    ensures var e := RunOf(m, Chain(ADD, ADC, d, r, n));
            var a, b, sum := Registers(m, d, n), Registers(m, r, n), Registers(e, d, n);
            && Number(sum) == (Number(a) + Number(b)) % Modulus(n)
            && (C in StatusIn(e) <==> Number(a) + Number(b) >= Modulus(n))
            && (V in StatusIn(e) <==> !InRange(SignedNumber(a) + SignedNumber(b), n))
            && OnlyRegisters(m, e, d, n, true)
  {
    hide StatusIn, FirstChain, AddChain, Registers, OnlyRegisters, Apart, RunOf, Chain, Number, SignedNumber, InRange, Modulus, Keeps;
    KeptBySums();
    FirstRuns(m, ADD, ADC, d, r, n);
    var a, b, sreg := Registers(m, d, n), Registers(m, r, n), StatusIn(m);
    SumChain(sreg, a, b);
    SumIsModular(sreg, a, b);
  }

  /** The bytes of an addition chain are the sum modulo 256^n. */
  lemma SumIsModular(sreg: Sreg, a: seq<byte>, b: seq<byte>)
    requires |a| == |b| > 0
    ensures var (bytes, f) := AddChain(sreg, a, b);
            && Number(bytes) == (Number(a) + Number(b)) % Modulus(|a|)
            && (C in f <==> Number(a) + Number(b) >= Modulus(|a|))
            && (V in f <==> !InRange(SignedNumber(a) + SignedNumber(b), |a|))
  {
    hide AddChain, Number, SignedNumber, InRange, Modulus;
    AddChainMeaning(sreg, a, b);
    var (bytes, f) := AddChain(sreg, a, b);
    NumberBound(bytes);
    RemainderOf(Number(a) + Number(b), Modulus(|a|), Number(bytes), C in f);
  }

  lemma RemainderOf(total: nat, m: int, r: nat, carry: bool)
    requires r < m && r == total - m * Flip(carry)
    ensures total % m == r
  {
    DivisionIsUnique(total, m, Flip(carry), r);
  }

  /** The same for `SUB` then `SBC` and the n-byte difference, with the flags of its comparison. */
  lemma DifferenceProgram(isa: Isa, flash: seq<byte>, program_size: nat, core: Core, d: nat, r: nat, n: nat)
    requires Computes(isa) && InFlash(flash, program_size) && |core.data| == MAX_RAM_SIZE
    requires n >= 1 && d + n <= 32 && r + n <= 32 && Apart(true, d, r, n)
    requires Holds(flash, program_size, core.pc, Chain(SUB, SBC, d, r, n))
    ensures var e := RunOf(core.data, Chain(SUB, SBC, d, r, n));
            var a, b, difference := Registers(core.data, d, n), Registers(core.data, r, n), Registers(e, d, n);
            && EndsWith(DirectRun(isa, flash, program_size, core, n), core, n, e)
            && Number(difference) == (Number(a) - Number(b)) % Modulus(n)
            && SubMeaning(a, b, 0, true, difference, StatusIn(e))
            && OnlyRegisters(core.data, e, d, n, true)
  {
    hide DirectRun, Computes, Holds, RunOf, Chain, Apart, StatusIn, OnlyRegisters, Registers, Number, SubMeaning, Modulus;
    ProgramRuns(isa, flash, program_size, core, Chain(SUB, SBC, d, r, n));
    DifferenceOfChain(core.data, d, r, n);
  }

  lemma DifferenceOfChain(m: Ram, d: nat, r: nat, n: nat)
    requires n >= 1 && d + n <= 32 && r + n <= 32 && Apart(true, d, r, n)
    ensures var e := RunOf(m, Chain(SUB, SBC, d, r, n));
            var a, b, difference := Registers(m, d, n), Registers(m, r, n), Registers(e, d, n);
            && Number(difference) == (Number(a) - Number(b)) % Modulus(n)
            && SubMeaning(a, b, 0, true, difference, StatusIn(e))
            && OnlyRegisters(m, e, d, n, true)
  {
    hide StatusIn, FirstChain, SubChain, Registers, OnlyRegisters, Apart, RunOf, Chain, Number, SignedNumber, InRange;
    FirstRuns(m, SUB, SBC, d, r, n);
    var a, b, sreg := Registers(m, d, n), Registers(m, r, n), StatusIn(m);
    DifferenceChain(SUB, SBC, sreg, a, b);
    SubChainMeaning(sreg, a, b);
    var (bytes, f) := SubChain(sreg, a, b);
    NumberBound(bytes);
    BorrowedRemainder(Number(a) - Number(b), Modulus(n), Number(bytes), C in f);
  }

  lemma BorrowedRemainder(difference: int, m: int, r: nat, borrow: bool)
    requires r < m && r == difference + m * Flip(borrow)
    ensures difference % m == r
  {
    DivisionIsUnique(difference, m, -Flip(borrow), r);
  }

  /**
    `CP` then `CPC`: C, Z and S compare the two n-byte numbers, and nothing but the status register
    changes.
   */
  lemma CompareProgram(isa: Isa, flash: seq<byte>, program_size: nat, core: Core, d: nat, r: nat, n: nat)
    requires Computes(isa) && InFlash(flash, program_size) && |core.data| == MAX_RAM_SIZE
    requires n >= 1 && d + n <= 32 && r + n <= 32
    requires Holds(flash, program_size, core.pc, Chain(CP, CPC, d, r, n))
    ensures var e := RunOf(core.data, Chain(CP, CPC, d, r, n));
            var a, b := Registers(core.data, d, n), Registers(core.data, r, n);
            && EndsWith(DirectRun(isa, flash, program_size, core, n), core, n, e)
            && (C in StatusIn(e) <==> Number(a) < Number(b))
            && (Z in StatusIn(e) <==> a == b)
            && (S in StatusIn(e) <==> SignedNumber(a) < SignedNumber(b))
            && OnlyRegisters(core.data, e, d, n, false)
  {
    hide DirectRun, Computes, Holds, RunOf, Chain, StatusIn, OnlyRegisters, Registers, Number, SignedNumber;
    ProgramRuns(isa, flash, program_size, core, Chain(CP, CPC, d, r, n));
    ComparisonOfChain(core.data, d, r, n);
  }

  lemma ComparisonOfChain(m: Ram, d: nat, r: nat, n: nat)
    requires n >= 1 && d + n <= 32 && r + n <= 32
    ensures var e := RunOf(m, Chain(CP, CPC, d, r, n));
            var a, b := Registers(m, d, n), Registers(m, r, n);
            && (C in StatusIn(e) <==> Number(a) < Number(b))
            && (Z in StatusIn(e) <==> a == b)
            && (S in StatusIn(e) <==> SignedNumber(a) < SignedNumber(b))
            && OnlyRegisters(m, e, d, n, false)
  {
    hide StatusIn, FirstChain, SubChain, Registers, OnlyRegisters, RunOf, Chain, Number, SignedNumber;
    FirstRuns(m, CP, CPC, d, r, n);
    var a, b, sreg := Registers(m, d, n), Registers(m, r, n), StatusIn(m);
    DifferenceChain(CP, CPC, sreg, a, b);
    CompareChain(sreg, a, b);
  }

  // ----- shifting ---------------------------------------------------------------------------

  /** `top` on the highest of `n` neighbouring registers, then `ROR` down to the lowest. */
  function Downwards(top: Opcode, d: nat, n: nat): (program: seq<Instruction>)
    requires (top == LSR || top == ASR) && n >= 1 && d + n <= 32
    ensures |program| == n && IsProgram(program)
    decreases n
  {
    if n == 1 then [Instruction(top, d, d)] else Downwards(top, d + 1, n - 1) + [Instruction(ROR, d, d)]
  }

  lemma {:induction false} RunOfLast(d: Ram, program: seq<Instruction>, last: Instruction)
    requires IsProgram(program) && InRegisters(last)
    ensures IsProgram(program + [last])
    ensures RunOf(d, program + [last]) == Executed(RunOf(d, program), last.op, last.rd, last.rr)
    decreases |program|
  {
    hide Executed;
    if program == [] {
      assert program + [last] == [last];
    } else {
      assert (program + [last])[1..] == program[1..] + [last];
      RunOfLast(Executed(d, program[0].op, program[0].rd, program[0].rr), program[1..], last);
    }
  }

  /** From one memory to another the registers and the status went through a shift chain. */
  predicate ShiftedTo(d: Ram, e: Ram, top: Opcode, rd: nat, n: nat)
    requires n >= 1 && rd + n <= 32
  {
    var a := Registers(d, rd, n);
    var (bytes, f) := ShiftChain(StatusIn(d), a, top == ASR && a[n - 1] >= 128);
    StatusIn(e) == f && Registers(e, rd, n) == bytes && OnlyRegisters(d, e, rd, n, true)
  }

  lemma {:induction false} DownwardsRun(d: Ram, top: Opcode, rd: nat, n: nat)
    requires (top == LSR || top == ASR) && n >= 1 && rd + n <= 32
    ensures ShiftedTo(d, RunOf(d, Downwards(top, rd, n)), top, rd, n)
    decreases n
  {
    hide ShiftedTo, RunOf, Downwards;
    if n == 1 {
      DownwardsOne(d, top, rd);
    } else {
      DownwardsRun(d, top, rd + 1, n - 1);
      DownwardsMore(d, top, rd, n);
    }
  }

  lemma DownwardsOne(d: Ram, top: Opcode, rd: nat)
    requires (top == LSR || top == ASR) && rd < 32
    ensures ShiftedTo(d, RunOf(d, Downwards(top, rd, 1)), top, rd, 1)
  {
    hide StatusIn, Executed, RotateStep, OnlyRegisters, RunOf, ShiftChain;
    OneInstruction(d, Instruction(top, rd, rd));
    ExecutedMeaning(d, top, rd, rd);
    OneByteShifted(StatusIn(d), Registers(d, rd, 1), top == ASR && d[rd] >= 128);
  }

  lemma DownwardsMore(d: Ram, top: Opcode, rd: nat, n: nat)
    requires (top == LSR || top == ASR) && n > 1 && rd + n <= 32
    ensures ShiftedTo(d, RunOf(d, Downwards(top, rd + 1, n - 1)), top, rd + 1, n - 1) ==>
              ShiftedTo(d, RunOf(d, Downwards(top, rd, n)), top, rd, n)
  {
    hide StatusIn, Executed, RotateStep, OnlyRegisters, RunOf, Registers, ShiftChain;
    var above := Downwards(top, rd + 1, n - 1);
    var e1 := RunOf(d, above);
    if ShiftedTo(d, e1, top, rd + 1, n - 1) {
      var a := Registers(d, rd, n);
      FirstAndRest(d, rd, n);
      assert a[1..] == Registers(d, rd + 1, n - 1);
      assert a[n - 1] == a[1..][n - 2];
      RunOfLast(d, above, Instruction(ROR, rd, rd));
      ExecutedMeaning(e1, ROR, rd, rd);
      LastShifted(d, e1, Executed(e1, ROR, rd, rd), rd, n);
      LowByteShifted(StatusIn(d), a, top == ASR && a[n - 1] >= 128);
    }
  }

  lemma OneInstruction(d: Ram, i: Instruction)
    requires InRegisters(i)
    ensures RunOf(d, [i]) == Executed(d, i.op, i.rd, i.rr)
  {
    hide Executed;
    assert [i][1..] == [];
  }

  lemma OneByteShifted(sreg: Sreg, a: seq<byte>, top_bit: bool)
    requires |a| == 1
    ensures var (r, f) := RotateStep(sreg, a[0], top_bit); ShiftChain(sreg, a, top_bit) == ([r], f)
  {
    hide RotateStep;
  }

  lemma LowByteShifted(sreg: Sreg, a: seq<byte>, top_bit: bool)
    requires |a| > 1
    ensures var (rest, f) := ShiftChain(sreg, a[1..], top_bit);
            var (r0, last) := RotateStep(f, a[0], C in f);
            ShiftChain(sreg, a, top_bit) == ([r0] + rest, last)
  {
    hide RotateStep;
  }

  lemma LastShifted(d: Ram, e1: Ram, e: Ram, rd: nat, n: nat)
    requires n > 1 && rd + n <= 32
    requires OnlyRegisters(d, e1, rd + 1, n - 1, true) && OnlyRegisters(e1, e, rd, 1, true)
    ensures OnlyRegisters(d, e, rd, n, true) && e1[rd] == d[rd]
    ensures Registers(e, rd, n) == [e[rd]] + Registers(e1, rd + 1, n - 1)
  {
  }

  /**
    `LSR` or `ASR` then `ROR` as a program in flash: the unsigned or signed number in the registers is
    halved, rounding down, with C the remainder, and nothing else changes but the status register.
   */
  lemma HalfProgram(isa: Isa, flash: seq<byte>, program_size: nat, core: Core, top: Opcode, d: nat, n: nat)
    requires Computes(isa) && InFlash(flash, program_size) && |core.data| == MAX_RAM_SIZE
    requires (top == LSR || top == ASR) && n >= 1 && d + n <= 32
    requires Holds(flash, program_size, core.pc, Downwards(top, d, n))
    ensures var e := RunOf(core.data, Downwards(top, d, n));
            var a, half := Registers(core.data, d, n), Registers(e, d, n);
            && EndsWith(DirectRun(isa, flash, program_size, core, n), core, n, e)
            && (top == LSR ==> Number(half) == Number(a) / 2 && (C in StatusIn(e) <==> Number(a) % 2 == 1))
            && (top == ASR ==> SignedNumber(half) == SignedNumber(a) / 2 && (C in StatusIn(e) <==> SignedNumber(a) % 2 == 1))
            && OnlyRegisters(core.data, e, d, n, true)
  {
    hide DirectRun, Computes, Holds, StatusIn, Registers, OnlyRegisters, RunOf, Downwards, ShiftChain;
    ProgramRuns(isa, flash, program_size, core, Downwards(top, d, n));
    DownwardsRun(core.data, top, d, n);
    ShiftChainMeaning(StatusIn(core.data), Registers(core.data, d, n));
  }
}
