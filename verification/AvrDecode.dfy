/**
  Pre-decoding in `avrtest.c`: `decode_flash` fills a table once, and `do_step` executes from it.
  What the instructions do is a parameter: any sizes, cycle counts and instruction functions.
 */
module AvrDecode {
  import opened AvrFlags
  import opened AvrOpcode

  /** The processor state the instruction functions update. */
  datatype Core = Core(pc: nat, cycles: nat, data: seq<byte>)

  datatype Reason = OutOfProgramSpace | InstructionLimit | Other(code: nat)

  /** The simulator goes on, or has left. */
  datatype Outcome = Running(core: Core) | Left(reason: Reason, core: Core)

  /**
    `opcode_func_array` and the instruction functions. An instruction sees its operands, the state
    after the counter was advanced, the flash, which it can only read, and the size of the instruction
    the counter points to, which the skip instructions look up.
   */
  datatype Isa = Isa(
    size: Opcode -> nat,
    cycles: Opcode -> nat,
    func: (DecodedOp, Core, seq<byte>, nat) -> Outcome)

  // ----- fetching ---------------------------------------------------------------------------

  /** The opcode at a word address. */
  function Word(flash: seq<byte>, i: nat): nat
    requires 2 * i + 1 < |flash|
  {
    var low: int, high: int := flash[2 * i], flash[2 * i + 1];
    low + 256 * high
  }

  /** Flash holds words with their low byte first. */
  lemma LowByteFirst(flash: seq<byte>, i: nat, w: nat)
    requires 2 * i + 1 < |flash| && w < 65536
    ensures Word(flash, i) == w <==> flash[2 * i] == w % 256 && flash[2 * i + 1] == w / 256
  {
    var low: int, high: int := flash[2 * i], flash[2 * i + 1];
    assert w == 256 * (w / 256) + w % 256;
  }

  /** The number of words the program occupies; an odd last byte counts as a word. */
  function Words(program_size: nat): nat {
    (program_size + 1) / 2
  }

  /** The program and the word after it lie in flash. */
  predicate InFlash(flash: seq<byte>, program_size: nat) {
    |flash| % 2 == 0 && program_size + 2 <= |flash|
  }

  /** Fetch and decode the two words at the counter. */
  function DirectFetch(flash: seq<byte>, program_size: nat, pc: nat): DecodedOp
    requires InFlash(flash, program_size)
  {
    if pc < Words(program_size) then DecodeOpcode(Word(flash, pc), Word(flash, pc + 1)) else EMPTY
  }

  /** Look the counter up in the table; beyond its end there is nothing decoded. */
  function TableFetch(decoded: seq<DecodedOp>, pc: nat): DecodedOp {
    if pc < |decoded| then decoded[pc] else EMPTY
  }

  /** The rest of `do_step`, given what was fetched at the counter and what is fetched after it. */
  function Perform(isa: Isa, flash: seq<byte>, core: Core, dop: DecodedOp, next: DecodedOp): Outcome {
    if dop.index == dummy then Left(OutOfProgramSpace, core)
    else isa.func(dop, Advanced(isa, core, dop), flash, isa.size(next.index))
  }

  function Advanced(isa: Isa, core: Core, dop: DecodedOp): Core {
    core.(pc := core.pc + isa.size(dop.index), cycles := (core.cycles + isa.cycles(dop.index)) % 0x1_0000_0000)
  }

  function DirectStep(isa: Isa, flash: seq<byte>, program_size: nat, core: Core): Outcome
    requires InFlash(flash, program_size)
  {
    var dop := DirectFetch(flash, program_size, core.pc);
    Perform(isa, flash, core, dop, DirectFetch(flash, program_size, Advanced(isa, core, dop).pc))
  }

  function TableStep(isa: Isa, flash: seq<byte>, decoded: seq<DecodedOp>, core: Core): Outcome {
    var dop := TableFetch(decoded, core.pc);
    Perform(isa, flash, core, dop, TableFetch(decoded, Advanced(isa, core, dop).pc))
  }

  /** `n` steps of the machine that decodes what it fetches. */
  function DirectRun(isa: Isa, flash: seq<byte>, program_size: nat, core: Core, n: nat): Outcome
    requires InFlash(flash, program_size)
    decreases n
  {
    if n == 0 then Running(core)
    else
      match DirectStep(isa, flash, program_size, core)
      case Left(reason, last) => Left(reason, last)
      case Running(next) => DirectRun(isa, flash, program_size, next, n - 1)
  }

  // ----- the simulator ----------------------------------------------------------------------

  /** The global arrays `cpu_flash` and `decoded_flash` and the processor state. */
  class Simulator {
    const isa: Isa
    const flash: array<byte>
    const decoded: array<DecodedOp>
    const program_size: nat
    var core: Core

    /** The state after the program is loaded; static storage starts out zero. */
    constructor (isa: Isa, image: array<byte>, program_size: nat, data: seq<byte>)
      requires InFlash(image[..], program_size)
      ensures Loaded() && fresh(decoded) && flash == image
      ensures this.isa == isa && this.program_size == program_size && core == Core(0, 0, data)
      ensures forall i :: 0 <= i < decoded.Length ==> decoded[i] == EMPTY
    {
      this.isa, flash, this.program_size := isa, image, program_size;
      decoded := new DecodedOp[image.Length / 2](_ => EMPTY);
      core := Core(0, 0, data);
    }

    ghost predicate Loaded()
      reads flash
    {
      InFlash(flash[..], program_size) && decoded.Length == flash.Length / 2
    }

    /** Every table entry is what decoding the flash at its address gives. */
    ghost predicate Decoded()
      reads flash, decoded
    {
      Loaded() && forall i :: 0 <= i < decoded.Length ==> decoded[i] == DirectFetch(flash[..], program_size, i)
    }

    /** `decode_flash`: the second word of one entry is the first word of the next. */
    method DecodeFlash()
      requires Loaded()
      requires forall i :: 0 <= i < decoded.Length ==> decoded[i] == EMPTY
      modifies decoded
      ensures Decoded()
    {
      hide DecodeOpcode;
      ghost var image := flash[..];
      var i := 0;
      var opcode1: nat := flash[i] as int + flash[i + 1] as int * 256;
      assert opcode1 == Word(image, 0);
      while i < program_size
        invariant i % 2 == 0 && i <= program_size + 1
        invariant flash[..] == image
        invariant opcode1 == Word(image, i / 2)
        invariant forall j :: 0 <= j < i / 2 ==> decoded[j] == DecodeOpcode(Word(image, j), Word(image, j + 1))
        invariant forall j :: i / 2 <= j < decoded.Length ==> decoded[j] == EMPTY
      {
        var opcode2: nat := flash[i + 2] as int + flash[i + 3] as int * 256;
        assert opcode2 == Word(image, i / 2 + 1);
        decoded[i / 2] := DecodeOpcode(opcode1, opcode2);
        opcode1 := opcode2;
        i := i + 2;
      }
      assert i / 2 == Words(program_size);
    }

    /** `do_step`; the outcome says whether the simulator left. */
    method DoStep() returns (outcome: Outcome)
      requires Decoded()
      modifies this`core
      ensures outcome == DirectStep(isa, flash[..], program_size, old(core))
      ensures core == outcome.core
    {
      TableIsDirect(isa, flash[..], program_size, decoded[..], core);
      var dop := if core.pc < decoded.Length then decoded[core.pc] else EMPTY;
      if dop.index == dummy {
        return Left(OutOfProgramSpace, core);
      }
      core := Advanced(isa, core, dop);
      var next := if core.pc < decoded.Length then decoded[core.pc] else EMPTY;
      outcome := isa.func(dop, core, flash[..], isa.size(next.index));
      core := outcome.core;
    }

    /** `execute` with an instruction limit, which zero is not: the simulator leaves in any case. */
    method Execute(max_instr_count: nat) returns (outcome: Outcome)
      requires Decoded() && max_instr_count > 0
      modifies this`core
      ensures outcome == Limited(DirectRun(isa, flash[..], program_size, old(core).(pc := 0, cycles := 0), max_instr_count))
      ensures core == outcome.core
      ensures Decoded()
    {
      hide DirectStep;
      core := core.(pc := 0, cycles := 0);
      ghost var start := core;
      var count := 0;
      while count < max_instr_count
        invariant 0 <= count <= max_instr_count
        invariant DirectRun(isa, flash[..], program_size, start, max_instr_count)
                  == DirectRun(isa, flash[..], program_size, core, max_instr_count - count)
        invariant Decoded()
      {
        outcome := DoStep();
        if outcome.Left? {
          return;
        }
        count := count + 1;
      }
      outcome := Left(InstructionLimit, core);
    }
  }

  /** A run that is still going when the limit is reached is left for that reason. */
  function Limited(outcome: Outcome): Outcome {
    match outcome
    case Running(core) => Left(InstructionLimit, core)
    case Left(_, _) => outcome
  }

  // ----- pre-decoding preserves meaning -----------------------------------------------------

  ghost predicate DecodedFrom(flash: seq<byte>, program_size: nat, decoded: seq<DecodedOp>)
    requires InFlash(flash, program_size)
  {
    |decoded| == |flash| / 2
    && forall i :: 0 <= i < |decoded| ==> decoded[i] == DirectFetch(flash, program_size, i)
  }

  /** One step from the table is one step that decodes what it fetches, wherever the counter is. */
  lemma TableIsDirect(isa: Isa, flash: seq<byte>, program_size: nat, decoded: seq<DecodedOp>, core: Core)
    requires InFlash(flash, program_size) && DecodedFrom(flash, program_size, decoded)
    ensures TableStep(isa, flash, decoded, core) == DirectStep(isa, flash, program_size, core)
  {
    forall pc: nat
      ensures TableFetch(decoded, pc) == DirectFetch(flash, program_size, pc)
    {
    }
  }

  /** `n` steps of `do_step`. */
  function TableRun(isa: Isa, flash: seq<byte>, decoded: seq<DecodedOp>, core: Core, n: nat): Outcome
    decreases n
  {
    if n == 0 then Running(core)
    else
      match TableStep(isa, flash, decoded, core)
      case Left(reason, last) => Left(reason, last)
      case Running(next) => TableRun(isa, flash, decoded, next, n - 1)
  }

  /** Every run from the table is the run that decodes as it goes. */
  lemma {:induction false} RunsAgree(
      isa: Isa, flash: seq<byte>, program_size: nat, decoded: seq<DecodedOp>, core: Core, n: nat)
    requires InFlash(flash, program_size) && DecodedFrom(flash, program_size, decoded)
    ensures TableRun(isa, flash, decoded, core, n) == DirectRun(isa, flash, program_size, core, n)
    decreases n
  {
    hide TableStep, DirectStep;
    if n > 0 {
      TableIsDirect(isa, flash, program_size, decoded, core);
      match DirectStep(isa, flash, program_size, core)
      case Left(_, _) =>
      case Running(next) => RunsAgree(isa, flash, program_size, decoded, next, n - 1);
    }
  }

  /** The simulator finds nothing decoded exactly when the counter is outside the program. */
  lemma AbortsOutsideProgram(isa: Isa, flash: seq<byte>, program_size: nat, decoded: seq<DecodedOp>, core: Core)
    requires InFlash(flash, program_size) && DecodedFrom(flash, program_size, decoded)
    ensures TableFetch(decoded, core.pc).index == dummy <==> core.pc >= Words(program_size)
    ensures core.pc >= Words(program_size) ==> TableStep(isa, flash, decoded, core) == Left(OutOfProgramSpace, core)
  {
    hide DecodeOpcode;
    if core.pc < Words(program_size) {
      NeverDummy(Word(flash, core.pc), Word(flash, core.pc + 1));
    }
  }
}
