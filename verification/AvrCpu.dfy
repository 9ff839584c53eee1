/** The simulator's processor state, updated in place, and its arithmetic and stack operations. */
module AvrCpu {
  import opened XiErr
  import opened AvrFlags
  import opened AvrArith
  import opened AvrStack
  import opened AvrOpcode

  // ----- the status register as a byte ------------------------------------------------------

  /** The byte at address SREG: bit 7 is I and bit 0 is C. */
  function SregByte(s: Sreg): (b: byte) {
    Flip(C in s) + Flip(Z in s) * 2 + Flip(N in s) * 4 + Flip(V in s) * 8
    + Flip(S in s) * 16 + Flip(H in s) * 32 + Flip(T in s) * 64 + Flip(I in s) * 128
  }

  function Weight(f: Flag): (w: int)
    ensures w > 0
  {
    match f
    case C => 1
    case Z => 2
    case N => 4
    case V => 8
    case S => 16
    case H => 32
    case T => 64
    case I => 128
  }

  function FlagsOf(b: byte): Sreg {
    set f: Flag | Bit(b, Weight(f))
  }

  /** The byte and the set of its one bits determine each other. */
  lemma SregRoundTrip(s: Sreg)
    ensures FlagsOf(SregByte(s)) == s
  {
    hide Bit;
    LowBits(C in s, Z in s, N in s, V in s, Flip(S in s) + Flip(H in s) * 2 + Flip(T in s) * 4 + Flip(I in s) * 8);
    HighBits(Flip(C in s) + Flip(Z in s) * 2 + Flip(N in s) * 4 + Flip(V in s) * 8, S in s, H in s, T in s, I in s);
    forall f: Flag
      ensures Bit(SregByte(s), Weight(f)) <==> f in s
    {
    }
  }

  /** Which bit of the byte each flag is, from C in bit 0 to I in bit 7. */
  lemma SregBits(s: Sreg)
    ensures var b: int := SregByte(s);
            && (C in s <==> b % 2 == 1) && (Z in s <==> b / 2 % 2 == 1)
            && (N in s <==> b / 4 % 2 == 1) && (V in s <==> b / 8 % 2 == 1)
            && (S in s <==> b / 16 % 2 == 1) && (H in s <==> b / 32 % 2 == 1)
            && (T in s <==> b / 64 % 2 == 1) && (I in s <==> b / 128 % 2 == 1)
  {
    hide Bit, SregByte;
    SregRoundTrip(s);
    BitOfByte(SregByte(s));
    assert forall f: Flag :: f in FlagsOf(SregByte(s)) <==> Bit(SregByte(s), Weight(f));
  }

  lemma BitOfByte(b: byte)
    ensures (Bit(b, 1) <==> b % 2 == 1) && (Bit(b, 2) <==> b / 2 % 2 == 1) && (Bit(b, 4) <==> b / 4 % 2 == 1)
    ensures (Bit(b, 8) <==> b / 8 % 2 == 1) && (Bit(b, 16) <==> b / 16 % 2 == 1) && (Bit(b, 32) <==> b / 32 % 2 == 1)
    ensures (Bit(b, 64) <==> b / 64 % 2 == 1) && (Bit(b, 128) <==> b / 128 % 2 == 1)
  {
  }

  lemma LowBits(c: bool, z: bool, n: bool, v: bool, high: int)
    requires 0 <= high < 16
    ensures var b := Flip(c) + Flip(z) * 2 + Flip(n) * 4 + Flip(v) * 8 + 16 * high;
            Bit(b, 1) == c && Bit(b, 2) == z && Bit(b, 4) == n && Bit(b, 8) == v
  {
  }

  lemma HighBits(low: int, s: bool, h: bool, t: bool, i: bool)
    requires 0 <= low < 16
    ensures var b := low + Flip(s) * 16 + Flip(h) * 32 + Flip(t) * 64 + Flip(i) * 128;
            Bit(b, 16) == s && Bit(b, 32) == h && Bit(b, 64) == t && Bit(b, 128) == i
  {
  }

  // ----- arithmetic instructions on memory --------------------------------------------------

  function StatusIn(d: Ram): Sreg {
    FlagsOf(d[SREG])
  }

  /** Memory after a step: the flags go to the status register, the byte to a register if it is kept. */
  function Written(d: Ram, step: (byte, Sreg), rd: nat, kept: bool): Ram
    requires rd < 32
  {
    var e := d[SREG := SregByte(step.1)];
    if kept then e[rd := step.0] else e
  }

  lemma WrittenMeaning(d: Ram, step: (byte, Sreg), rd: nat, kept: bool)
    requires rd < 32
    ensures var e := Written(d, step, rd, kept);
            && FlagsOf(e[0x5F]) == step.1 == StatusIn(e)
            && (kept ==> e[rd] == step.0)
            && (forall i :: 0 <= i < MAX_RAM_SIZE && i != SREG && (kept ==> i != rd) ==> e[i] == d[i])
  {
    hide FlagsOf, SregByte;
    SregRoundTrip(step.1);
  }

  /** The instructions of the chains. */
  predicate Arithmetic(op: Opcode) {
    op == ADD || op == ADC || op == SUB || op == SBC || op == CP || op == CPC || op == LSR || op == ASR || op == ROR
  }

  /** The step an instruction takes on the bytes of its operands; the shifts have one operand. */
  function StepOf(op: Opcode, sreg: Sreg, a: byte, b: byte): (byte, Sreg)
    requires Arithmetic(op)
  {
    match op
    case ADD => AddStep(sreg, a, b, 0)
    case ADC => AddStep(sreg, a, b, Carry(sreg))
    case SUB => SubStep(sreg, a, b, 0, false)
    case SBC => SubStep(sreg, a, b, Carry(sreg), true)
    case CP => SubStep(sreg, a, b, 0, false)
    case CPC => SubStep(sreg, a, b, Carry(sreg), true)
    case LSR => RotateStep(sreg, a, false)
    case ASR => RotateStep(sreg, a, a >= 128)
    case ROR => RotateStep(sreg, a, C in sreg)
  }

  /** Memory after an instruction; `CP` and `CPC` drop their byte. */
  function Executed(d: Ram, op: Opcode, rd: nat, rr: nat): Ram
    requires Arithmetic(op) && rd < 32 && rr < MAX_RAM_SIZE
  {
    Written(d, StepOf(op, StatusIn(d), d[rd], d[rr]), rd, op != CP && op != CPC)
  }

  /** `cpu_data`, the generated tables and the program counter. */
  class Cpu {
    const data: array<byte>
    const add8: array<Sreg>
    const sub8: array<Sreg>
    const ror8: array<Sreg>
    const pc_3bytes: bool
    var pc: nat

    constructor (three: bool)
      ensures Valid() && fresh(data) && pc_3bytes == three && pc == 0
    {
      data := new byte[MAX_RAM_SIZE](_ => 0);
      pc_3bytes, pc := three, 0;
      var add := GenerateAdd8();
      var sub := GenerateSub8();
      var ror := GenerateRor8();
      add8, sub8, ror8 := add, sub, ror;
    }

    /** Memory is of full size and the tables are as generated. */
    ghost predicate Valid()
      reads add8, sub8, ror8
    {
      && data.Length == MAX_RAM_SIZE && add8.Length == sub8.Length == 8192 && ror8.Length == 512
      && (forall i :: 0 <= i < 8192 ==> add8[i] == Add8Entry(i) && sub8[i] == Sub8Entry(i))
      && (forall i :: 0 <= i < 512 ==> ror8[i] == Ror8Entry(i))
    }

    function Status(): Sreg
      requires data.Length == MAX_RAM_SIZE
      reads data
    {
      FlagsOf(data[SREG])
    }

    ghost function Memory(): Ram
      requires data.Length == MAX_RAM_SIZE
      reads data
    {
      data[..]
    }

    // ----- flags and registers ---------------------------------------------------------------

    /** `update_flags`. */
    method UpdateStatus(flags: Sreg, values: Sreg)
      requires Valid()
      modifies data
      ensures Status() == UpdateFlags(old(Status()), flags, values) && data[0x5F] == SregByte(Status())
      ensures forall i :: 0 <= i < MAX_RAM_SIZE && i != SREG ==> data[i] == old(data[i])
    {
      var sreg := UpdateFlags(Status(), flags, values);
      data[SREG] := SregByte(sreg);
      SregRoundTrip(sreg);
    }

    /** `do_addition_8`: the sum goes to register `rd`, the flags are looked up. */
    method DoAddition8(rd: nat, rr: nat, carry: int)
      requires Valid() && rd < 32 && rr < 32 && 0 <= carry <= 1
      modifies data
      ensures Memory() == old(Written(Memory(), AddStep(Status(), data[rd], data[rr], carry), rd, true))
    {
      hide Add8Entry, Index, UpdateFlags, FlagsOf, SregByte;
      var value1, value2 := data[rd], data[rr];
      var result := value1 + value2 + carry;
      var sreg := add8[Index(value1, value2, result)];
      UpdateStatus(ARITHMETIC, sreg);
      data[rd] := result % 256;
    }

    /** `do_subtraction_8`: the difference is returned, the flags are looked up. */
    method DoSubtraction8(value1: byte, value2: byte, carry: int, use_carry: bool) returns (difference: byte)
      requires Valid() && 0 <= carry <= 1
      modifies data
      ensures difference == old(SubStep(Status(), value1, value2, carry, use_carry)).0
      ensures Memory() == old(Written(Memory(), SubStep(Status(), value1, value2, carry, use_carry), 0, false))
    {
      hide Sub8Entry, Index, UpdateFlags, FlagsOf, SregByte;
      var result := value1 - value2 - carry;
      var sreg := sub8[Index(value1, value2, result)];
      if use_carry && Z !in Status() {
        sreg := sreg - {Z};
      }
      UpdateStatus(ARITHMETIC, sreg);
      difference := result % 256;
    }

    /** `rotate_right`. */
    method RotateRight(rd: nat, value: byte, top_bit: bool)
      requires Valid() && rd < 32
      modifies data
      ensures Memory() == old(Written(Memory(), RotateStep(Status(), value, top_bit), rd, true))
    {
      hide Ror8Entry, UpdateFlags, FlagsOf, SregByte;
      var v := value + 256 * Flip(top_bit);
      data[rd] := v / 2;
      UpdateStatus(SHIFTS, ror8[v]);
    }

    // ----- instructions ----------------------------------------------------------------------

    /** `ADD` and `ADC`. */
    method Add(rd: nat, rr: nat, with_carry: bool)
      requires Valid() && rd < 32 && rr < 32
      modifies data
      ensures Memory() == Executed(old(Memory()), if with_carry then ADC else ADD, rd, rr)
    {
      hide AddStep, FlagsOf, Written;
      DoAddition8(rd, rr, if with_carry then Carry(Status()) else 0);
    }

    /** `SUB` and `SBC`. */
    method Sub(rd: nat, rr: nat, with_carry: bool)
      requires Valid() && rd < 32 && rr < 32
      modifies data
      ensures Memory() == Executed(old(Memory()), if with_carry then SBC else SUB, rd, rr)
    {
      hide SubStep, FlagsOf;
      var difference := DoSubtraction8(data[rd], data[rr], if with_carry then Carry(Status()) else 0, with_carry);
      data[rd] := difference;
    }

    /** `CP` and `CPC`: the difference is dropped. */
    method Compare(rd: nat, rr: nat, with_carry: bool)
      requires Valid() && rd < 32 && rr < 32
      modifies data
      ensures Memory() == Executed(old(Memory()), if with_carry then CPC else CP, rd, rr)
    {
      hide SubStep, FlagsOf;
      var _ := DoSubtraction8(data[rd], data[rr], if with_carry then Carry(Status()) else 0, with_carry);
    }

    /** `LSR`: a clear bit enters at the top. */
    method Lsr(rd: nat)
      requires Valid() && rd < 32
      modifies data
      ensures Memory() == Executed(old(Memory()), LSR, rd, rd)
    {
      hide RotateStep, FlagsOf, Written;
      RotateRight(rd, data[rd], false);
    }

    /** `ASR`: the sign bit stays. */
    method Asr(rd: nat)
      requires Valid() && rd < 32
      modifies data
      ensures Memory() == Executed(old(Memory()), ASR, rd, rd)
    {
      hide RotateStep, FlagsOf, Written;
      SignBit(data[rd]);
      RotateRight(rd, data[rd], Bit(data[rd], 128));
    }

    /** `ROR`: the carry enters at the top. */
    method Ror(rd: nat)
      requires Valid() && rd < 32
      modifies data
      ensures Memory() == Executed(old(Memory()), ROR, rd, rd)
    {
      hide RotateStep, FlagsOf, Written;
      RotateRight(rd, data[rd], Carry(Status()) == 1);
    }

    /** `ADIW`: the words of registers 24, 26, 28 and 30 plus a constant of six bits. */
    method Adiw(rd: nat, k: nat)
      requires Valid() && rd < 31 && k < 64
      modifies data
      ensures var w := old(WordAt(data[rd], data[rd + 1]));
              && WordAt(data[rd], data[rd + 1]) == (w + k) % 65536
              && Status() == old(UpdateFlags(Status(), SHIFTS, WordFlags(Add8Entry(WordIndex(w, w + k)), w + k)))
      ensures forall i :: 0 <= i < MAX_RAM_SIZE && i != rd && i != rd + 1 && i != SREG ==> data[i] == old(data[i])
    {
      hide Add8Entry, WordIndex, UpdateFlags, FlagsOf, WordFlags, WordAt;
      var svalue := WordAt(data[rd], data[rd + 1]);
      var evalue := svalue + k;
      WordOf(evalue);
      data[rd], data[rd + 1] := evalue % 256, evalue / 256 % 256;
      UpdateStatus(SHIFTS, WordFlags(add8[WordIndex(svalue, evalue)], evalue));
    }

    /** `SBIW`. */
    method Sbiw(rd: nat, k: nat)
      requires Valid() && rd < 31 && k < 64
      modifies data
      ensures var w := old(WordAt(data[rd], data[rd + 1]));
              && WordAt(data[rd], data[rd + 1]) == (w - k) % 65536
              && Status() == old(UpdateFlags(Status(), SHIFTS, WordFlags(Sub8Entry(WordIndex(w, w - k)), w - k)))
      ensures forall i :: 0 <= i < MAX_RAM_SIZE && i != rd && i != rd + 1 && i != SREG ==> data[i] == old(data[i])
    {
      hide Sub8Entry, WordIndex, UpdateFlags, FlagsOf, WordFlags, WordAt;
      var svalue := WordAt(data[rd], data[rd + 1]);
      var evalue := svalue - k;
      WordOf(evalue);
      data[rd], data[rd + 1] := evalue % 256, evalue / 256 % 256;
      UpdateStatus(SHIFTS, WordFlags(sub8[WordIndex(svalue, evalue)], evalue));
    }

    // ----- the stack -------------------------------------------------------------------------

    method ReadSp() returns (sp: int)
      requires Valid()
      ensures sp == Sp(Memory())
    {
      var low: int, high: int := data[SPL], data[SPH];
      sp := low + 256 * high;
    }

    method WriteSp(sp: int)
      requires Valid()
      modifies data
      ensures Memory() == WithSp(old(Memory()), sp)
    {
      data[SPL] := sp % 256;
      data[SPH] := sp / 256 % 256;
    }

    /** `push_byte`; false when the simulator gives up. */
    method PushByte(value: int) returns (ok: bool)
      requires Valid()
      modifies data
      ensures match old(PushedByte(Memory(), value))
              case None => !ok && Memory() == old(Memory())
              case Some(d) => ok && Memory() == d
    {
      hide Sp, WithSp;
      var sp := ReadSp();
      if sp < RESERVED {
        return false;
      }
      ghost var before := Memory();
      data[sp] := value % 256;
      assert Memory() == before[sp := value % 256];
      WriteSp(sp - 1);
      ok := true;
    }

    /** `pop_byte`. */
    method PopByte() returns (value: byte)
      requires Valid() && PoppedByte(Memory()).Some?
      modifies data
      ensures Some((value as nat, Memory())) == old(PoppedByte(Memory()))
    {
      hide Sp, WithSp;
      var sp := ReadSp();
      sp := sp + 1;
      WriteSp(sp);
      assert data[sp] == Memory()[sp];
      value := data[sp];
    }

    /** `push_PC`. */
    method PushPc() returns (ok: bool)
      requires Valid()
      modifies data
      ensures match old(PushedPc(Memory(), pc, pc_3bytes))
              case None => !ok && Memory() == old(Memory())
              case Some(d) => ok && Memory() == d
    {
      hide Sp, WithSp;
      var sp := ReadSp();
      if sp < RESERVED {
        return false;
      }
      ghost var before := Memory();
      data[sp] := pc % 256;
      sp := sp - 1;
      data[sp] := pc / 256 % 256;
      sp := sp - 1;
      assert Memory() == before[sp + 2 := pc % 256][sp + 1 := pc / 256 % 256];
      if pc_3bytes {
        data[sp] := pc / 65536 % 256;
        assert Memory() == before[sp + 2 := pc % 256][sp + 1 := pc / 256 % 256][sp := pc / 65536 % 256];
        sp := sp - 1;
      }
      WriteSp(sp);
      ok := true;
    }

    /** `pop_PC`; false when the counter read is out of bounds, and then nothing changes. */
    method PopPc() returns (ok: bool)
      requires Valid()
      requires Sp(Memory()) + PcSize(pc_3bytes) < MAX_RAM_SIZE
      requires !(Sp(Memory()) < STDIN_PORT <= Sp(Memory()) + PcSize(pc_3bytes))
      modifies data, this`pc
      ensures match old(PoppedPc(Memory(), pc_3bytes))
              case None => !ok && Memory() == old(Memory()) && pc == old(pc)
              case Some((popped, d)) => ok && Memory() == d && pc == popped
    {
      hide Sp, WithSp;
      var read: nat := 0;
      var sp := ReadSp();
      if pc_3bytes {
        sp := sp + 1;
        read := data[sp] as int * 65536;
        if read >= MAX_FLASH_SIZE / 2 {
          return false;
        }
      }
      sp := sp + 1;
      read := read + data[sp] as int * 256;
      sp := sp + 1;
      read := read + data[sp] as int;
      WriteSp(sp);
      pc := read;
      ok := true;
    }
  }

  /** `get_word_reg`. */
  function WordAt(low: byte, high: byte): (w: int)
    ensures 0 <= w < 65536
  {
    var l: int, h: int := low, high;
    l + 256 * h
  }

  /** `put_word_reg` stores a word modulo 2^16. */
  lemma WordOf(value: int)
    ensures WordAt(value % 256, value / 256 % 256) == value % 65536
  {
    var q := value / 256;
    assert value == 256 * q + value % 256;
    assert value == 65536 * (q / 256) + 256 * (q % 256) + value % 256;
  }
}
