/** `decode_opcode` of `avrtest.c`, for the instruction set without the XMEGA extensions. */
module AvrOpcode {
  import opened CInt
  import opened AvrFlags

  /** The indices of the instructions; `dummy` is index zero, which marks what was never decoded. */
  datatype Opcode =
    | dummy | ADC | ADD | ADIW | SBIW | AND | ANDI | ASR | BCLR | BLD | BRBC | BRBS | BSET | BST | CALL
    | CBI | COM | CP | CPC | CPI | CPSE | DEC | EICALL | EIJMP | ELPM | ELPM_Z | ELPM_Z_incr | EOR | ESPM
    | FMUL | FMULS | FMULSU | ICALL | IJMP | ILLEGAL | IN | INC | JMP | LDD_Y | LDD_Z | LDI | LDS | LD_X
    | LD_X_decr | LD_X_incr | LD_Y_decr | LD_Y_incr | LD_Z_decr | LD_Z_incr | LPM | LPM_Z | LPM_Z_incr | LSR
    | MOV | MOVW | MUL | MULS | MULSU | NEG | NOP | OR | ORI | OUT | POP | PUSH | RCALL | RET | RETI | RJMP
    | ROR | SBC | SBCI | SBI | SBIC | SBIS | SBRC | SBRS | SLEEP | SPM | STD_Y | STD_Z | STS | ST_X
    | ST_X_decr | ST_X_incr | ST_Y_decr | ST_Y_incr | ST_Z_decr | ST_Z_incr | SUB | SUBI | SWAP | WDR

  /** `decoded_op`. */
  datatype DecodedOp = DecodedOp(index: Opcode, oper1: nat, oper2: nat)

  const EMPTY := DecodedOp(dummy, 0, 0)

  /** `len` bits of an opcode from the bit of weight `weight` on, `size` being 2^len. */
  function Field(opcode: nat, weight: nat, size: nat): (f: nat)
    requires weight > 0 && size > 0
    ensures f < size
  {
    opcode / weight % size
  }

  /** `1 << n`. */
  function OneBit(n: nat): nat
    requires n < 8
  {
    [1, 2, 4, 8, 16, 32, 64, 128][n]
  }

  // ----- the tables -------------------------------------------------------------------------

  /** `avr_op_16_index`: opcodes without operands but `NOP`. */
  function NoOperandIndex(opcode1: nat): Opcode {
    if opcode1 == 0x9519 then EICALL
    else if opcode1 == 0x9419 then EIJMP
    else if opcode1 == 0x95D8 then ELPM
    else if opcode1 == 0x95F8 then ESPM
    else if opcode1 == 0x9509 then ICALL
    else if opcode1 == 0x9409 then IJMP
    else if opcode1 == 0x95C8 then LPM
    else if opcode1 == 0x9508 then RET
    else if opcode1 == 0x9518 then RETI
    else if opcode1 == 0x9588 then SLEEP
    else if opcode1 == 0x95E8 then SPM
    else if opcode1 == 0x95A8 then WDR
    else dummy
  }

  /** `avr_op_6_index`: opcodes unique in their upper six bits. */
  function UpperSixIndex(upper: nat): Opcode {
    if upper == 0x7 then ADC
    else if upper == 0x3 then ADD
    else if upper == 0x8 then AND
    else if upper == 0x5 then CP
    else if upper == 0x1 then CPC
    else if upper == 0x4 then CPSE
    else if upper == 0x9 then EOR
    else if upper == 0xb then MOV
    else if upper == 0x27 then MUL
    else if upper == 0xa then OR
    else if upper == 0x2 then SBC
    else if upper == 0x6 then SUB
    else dummy
  }

  /** `avr_op_74_index`: opcodes unique in their upper seven and lower four bits. */
  function OneRegisterIndex(decode: nat): Opcode {
    if decode == 0x9405 then ASR
    else if decode == 0x9400 then COM
    else if decode == 0x940A then DEC
    else if decode == 0x9006 then ELPM_Z
    else if decode == 0x9007 then ELPM_Z_incr
    else if decode == 0x9403 then INC
    else if decode == 0x9000 then LDS
    else if decode == 0x900C then LD_X
    else if decode == 0x900E then LD_X_decr
    else if decode == 0x900D then LD_X_incr
    else if decode == 0x900A then LD_Y_decr
    else if decode == 0x9009 then LD_Y_incr
    else if decode == 0x9002 then LD_Z_decr
    else if decode == 0x9001 then LD_Z_incr
    else if decode == 0x9004 then LPM_Z
    else if decode == 0x9005 then LPM_Z_incr
    else if decode == 0x9406 then LSR
    else if decode == 0x9401 then NEG
    else if decode == 0x900F then POP
    else if decode == 0x920F then PUSH
    else if decode == 0x9407 then ROR
    else if decode == 0x9200 then STS
    else if decode == 0x920C then ST_X
    else if decode == 0x920E then ST_X_decr
    else if decode == 0x920D then ST_X_incr
    else if decode == 0x920A then ST_Y_decr
    else if decode == 0x9209 then ST_Y_incr
    else if decode == 0x9202 then ST_Z_decr
    else if decode == 0x9201 then ST_Z_incr
    else if decode == 0x9402 then SWAP
    else dummy
  }

  // ----- decode_opcode ----------------------------------------------------------------------

  /** The opcode with the bits of `mask_Rd_5` cleared. */
  function WithoutRd5(opcode1: nat): nat {
    opcode1 / 512 * 512 + opcode1 % 16
  }

  /** `decode_opcode`, into an entry that was zero. */
  function DecodeOpcode(opcode1: nat, opcode2: nat): DecodedOp {
    if opcode1 == 0 then DecodedOp(NOP, 0, 0)
    else if NoOperandIndex(opcode1) != dummy then DecodedOp(NoOperandIndex(opcode1), 0, 0)
    else if UpperSixIndex(opcode1 / 1024) != dummy then
      DecodedOp(UpperSixIndex(opcode1 / 1024), Field(opcode1, 16, 32), opcode1 % 16 + 16 * Field(opcode1, 512, 2))
    else if OneRegisterIndex(WithoutRd5(opcode1)) != dummy then
      DecodedOp(OneRegisterIndex(WithoutRd5(opcode1)), Field(opcode1, 16, 32), opcode2)
    else DecodeImmediate(opcode1, opcode2)
  }

  /** A register from 16 to 31 and a constant of eight bits. */
  function DecodeImmediate(opcode1: nat, opcode2: nat): DecodedOp {
    var oper1, oper2 := 16 + Field(opcode1, 16, 16), opcode1 % 16 + 16 * Field(opcode1, 256, 16);
    var decode := opcode1 / 4096;
    if decode == 0x7 then DecodedOp(ANDI, oper1, oper2)
    else if decode == 0x3 then DecodedOp(CPI, oper1, oper2)
    else if decode == 0xE then DecodedOp(LDI, oper1, oper2)
    else if decode == 0x6 then DecodedOp(ORI, oper1, oper2)
    else if decode == 0x4 then DecodedOp(SBCI, oper1, oper2)
    else if decode == 0x5 then DecodedOp(SUBI, oper1, oper2)
    else DecodeRegisterBit(opcode1, opcode2)
  }

  /** A register and a bit of it, or a branch on a bit of the status register. */
  function DecodeRegisterBit(opcode1: nat, opcode2: nat): DecodedOp {
    var oper1, oper2 := Field(opcode1, 16, 32), OneBit(opcode1 % 8);
    var decode := opcode1 / 512 * 512 + 8 * Field(opcode1, 8, 2);
    if decode == 0xF800 then DecodedOp(BLD, oper1, oper2)
    else if decode == 0xFA00 then DecodedOp(BST, oper1, oper2)
    else if decode == 0xFC00 then DecodedOp(SBRC, oper1, oper2)
    else if decode == 0xFE00 then DecodedOp(SBRS, oper1, oper2)
    else if opcode1 / 1024 * 1024 == 0xF400 then DecodedOp(BRBC, Field(opcode1, 8, 128), oper2)
    else if opcode1 / 1024 * 1024 == 0xF000 then DecodedOp(BRBS, Field(opcode1, 8, 128), oper2)
    else DecodeDisplacement(opcode1, opcode2)
  }

  /** A register and a displacement of six bits. */
  function DecodeDisplacement(opcode1: nat, opcode2: nat): DecodedOp {
    var oper1 := Field(opcode1, 16, 32);
    var oper2 := opcode1 % 8 + 8 * Field(opcode1, 1024, 4) + 32 * Field(opcode1, 8192, 2);
    var y, store := Field(opcode1, 8, 2), Field(opcode1, 512, 2);
    if Field(opcode1, 0x4000, 4) == 2 && Field(opcode1, 0x1000, 2) == 0 then
      if y == 1 && store == 0 then DecodedOp(LDD_Y, oper1, oper2)
      else if store == 0 then DecodedOp(LDD_Z, oper1, oper2)
      else if y == 1 then DecodedOp(STD_Y, oper1, oper2)
      else DecodedOp(STD_Z, oper1, oper2)
    else DecodeAddress(opcode1, opcode2)
  }

  /** A 22-bit address, a bit of the status register, or a register pair and a constant. */
  function DecodeAddress(opcode1: nat, opcode2: nat): DecodedOp {
    var address := opcode1 % 2 + 2 * Field(opcode1, 16, 32);
    var without_k22 := opcode1 / 512 * 512 + 2 * Field(opcode1, 2, 8);
    var without_sreg_bit := opcode1 / 128 * 128 + opcode1 % 16;
    var pair, constant := 24 + 2 * Field(opcode1, 16, 4), opcode1 % 16 + 16 * Field(opcode1, 64, 4);
    if without_k22 == 0x940E then DecodedOp(CALL, address, opcode2)
    else if without_k22 == 0x940C then DecodedOp(JMP, address, opcode2)
    else if without_sreg_bit == 0x9488 then DecodedOp(BCLR, OneBit(Field(opcode1, 16, 8)), opcode2)
    else if without_sreg_bit == 0x9408 then DecodedOp(BSET, OneBit(Field(opcode1, 16, 8)), opcode2)
    else if opcode1 / 256 == 0x96 then DecodedOp(ADIW, pair, constant)
    else if opcode1 / 256 == 0x97 then DecodedOp(SBIW, pair, constant)
    else DecodeIo(opcode1)
  }

  /** Ports, relative jumps, and what is left. */
  function DecodeIo(opcode1: nat): DecodedOp {
    var port, bit := Field(opcode1, 8, 32) + IOBASE, OneBit(opcode1 % 8);
    var rd, address := Field(opcode1, 16, 32), opcode1 % 16 + 16 * Field(opcode1, 512, 4) + IOBASE;
    if opcode1 / 256 == 0x98 then DecodedOp(CBI, port, bit)
    else if opcode1 / 256 == 0x9A then DecodedOp(SBI, port, bit)
    else if opcode1 / 256 == 0x99 then DecodedOp(SBIC, port, bit)
    else if opcode1 / 256 == 0x9B then DecodedOp(SBIS, port, bit)
    else if opcode1 / 2048 * 2048 == 0xB000 then DecodedOp(IN, rd, address)
    else if opcode1 / 2048 * 2048 == 0xB800 then DecodedOp(OUT, rd, address)
    else if opcode1 / 4096 == 0xD then DecodedOp(RCALL, rd, opcode1 % 4096)
    else if opcode1 / 4096 == 0xC then DecodedOp(RJMP, rd, opcode1 % 4096)
    else DecodeMultiply(opcode1, rd)
  }

  function DecodeMultiply(opcode1: nat, rd: nat): DecodedOp {
    var high1, high2 := Field(opcode1, 16, 16), opcode1 % 16;
    var low1, low2 := 16 + Field(opcode1, 16, 8), 16 + opcode1 % 8;
    var decode := opcode1 / 128 * 128 + 8 * Field(opcode1, 8, 2);
    if opcode1 / 256 == 0x01 then DecodedOp(MOVW, 2 * high1, 2 * high2)
    else if opcode1 / 256 == 0x02 then DecodedOp(MULS, 16 + high1, 16 + high2)
    else if decode == 0x0300 then DecodedOp(MULSU, low1, low2)
    else if decode == 0x0308 then DecodedOp(FMUL, low1, low2)
    else if decode == 0x0380 then DecodedOp(FMULS, low1, low2)
    else if decode == 0x0388 then DecodedOp(FMULSU, low1, low2)
    else DecodedOp(ILLEGAL, low1, opcode1)
  }

  /** Whatever the opcode, an instruction is decoded: in the worst case the illegal one. */
  lemma NeverDummy(opcode1: nat, opcode2: nat)
    ensures DecodeOpcode(opcode1, opcode2).index != dummy
  {
    hide NoOperandIndex, UpperSixIndex, OneRegisterIndex, Field, OneBit, WithoutRd5;
  }

  // ----- decoding what the instruction formats encode ---------------------------------------

  /** The constant bits of the formats `xxxx xxrd dddd rrrr`. */
  function TwoRegisterBase(op: Opcode): (base: nat)
  {
    match op
    case ADC => 0x1C00
    case ADD => 0x0C00
    case AND => 0x2000
    case CP => 0x1400
    case CPC => 0x0400
    case CPSE => 0x1000
    case EOR => 0x2400
    case MOV => 0x2C00
    case MUL => 0x9C00
    case OR => 0x2800
    case SBC => 0x0800
    case SUB => 0x1800
    case _ => 0
  }

  predicate TwoRegister(op: Opcode) {
    TwoRegisterBase(op) != 0
  }

  /** The formats `xxxx xxrd dddd rrrr`. */
  function EncodeTwoRegister(op: Opcode, d: nat, r: nat): nat
    requires TwoRegister(op) && d < 32 && r < 32
  {
    TwoRegisterBase(op) + r / 16 * 512 + d * 16 + r % 16
  }

  lemma TwoRegisterFields(base: nat, d: nat, r: nat)
    requires base == base / 1024 * 1024 && d < 32 && r < 32
    ensures var opcode := base + r / 16 * 512 + d * 16 + r % 16;
            && opcode / 1024 == base / 1024 && opcode / 512 == base / 1024 * 2 + r / 16
            && Field(opcode, 16, 32) == d && opcode % 16 + 16 * Field(opcode, 512, 2) == r
  {
    var k, h, l := base / 1024, r / 16, r % 16;
    var opcode := base + h * 512 + d * 16 + l;
    DivisionIsUnique(opcode, 16, 64 * k + 32 * h + d, l);
    DivisionIsUnique(64 * k + 32 * h + d, 32, 2 * k + h, d);
    DivisionIsUnique(opcode, 512, 2 * k + h, 16 * d + l);
    DivisionIsUnique(2 * k + h, 2, k, h);
    DivisionIsUnique(opcode, 1024, k, 512 * h + 16 * d + l);
  }

  /** Every two-register instruction decodes to itself and its registers. */
  lemma DecodeTwoRegister(op: Opcode, d: nat, r: nat, opcode2: nat)
    requires TwoRegister(op) && d < 32 && r < 32
    ensures DecodeOpcode(EncodeTwoRegister(op, d, r), opcode2) == DecodedOp(op, d, r)
  {
    hide Field, DecodeImmediate, OneRegisterIndex, UpperSixIndex, NoOperandIndex, WithoutRd5, TwoRegisterBase;
    var opcode := EncodeTwoRegister(op, d, r);
    TwoRegisterTable(op);
    TwoRegisterFields(TwoRegisterBase(op), d, r);
    NoOperandRange(opcode);
  }

  lemma NoOperandRange(opcode1: nat)
    ensures NoOperandIndex(opcode1) != dummy ==> opcode1 / 512 == 74 && (opcode1 % 16 == 8 || opcode1 % 16 == 9)
  {
  }

  lemma TwoRegisterTable(op: Opcode)
    requires TwoRegister(op)
    ensures var base := TwoRegisterBase(op);
            op != dummy && base == base / 1024 * 1024 && base >= 1024 && UpperSixIndex(base / 1024) == op && base / 1024 != 37
  {
  }

  /** The lowest nibble of the formats `1001 010d dddd xxxx`. */
  function ArithmeticNibble(op: Opcode): nat {
    match op
    case COM => 0x0
    case NEG => 0x1
    case SWAP => 0x2
    case INC => 0x3
    case ASR => 0x5
    case LSR => 0x6
    case ROR => 0x7
    case DEC => 0xA
    case _ => 16
  }

  /** The lowest nibble of the formats `1001 001d dddd xxxx`. */
  function StoreNibble(op: Opcode): nat {
    match op
    case STS => 0x0
    case ST_Z_incr => 0x1
    case ST_Z_decr => 0x2
    case ST_Y_incr => 0x9
    case ST_Y_decr => 0xA
    case ST_X => 0xC
    case ST_X_incr => 0xD
    case ST_X_decr => 0xE
    case PUSH => 0xF
    case _ => 16
  }

  /** The lowest nibble of the formats `1001 000d dddd xxxx`. */
  function LoadNibble(op: Opcode): nat {
    match op
    case LDS => 0x0
    case LD_Z_incr => 0x1
    case LD_Z_decr => 0x2
    case LPM_Z => 0x4
    case LPM_Z_incr => 0x5
    case ELPM_Z => 0x6
    case ELPM_Z_incr => 0x7
    case LD_Y_incr => 0x9
    case LD_Y_decr => 0xA
    case LD_X => 0xC
    case LD_X_incr => 0xD
    case LD_X_decr => 0xE
    case POP => 0xF
    case _ => 16
  }

  /** The upper seven and the lower four bits of the formats `1001 0xxd dddd xxxx`. */
  function OneRegisterBits(op: Opcode): (nat, nat) {
    if ArithmeticNibble(op) < 16 then (0x9400, ArithmeticNibble(op))
    else if StoreNibble(op) < 16 then (0x9200, StoreNibble(op))
    else if LoadNibble(op) < 16 then (0x9000, LoadNibble(op))
    else (0, 0)
  }

  predicate OneRegister(op: Opcode) {
    OneRegisterBits(op).0 != 0
  }

  /** The formats `1001 0xxd dddd xxxx`. */
  function EncodeOneRegister(op: Opcode, d: nat): nat
    requires OneRegister(op) && d < 32
  {
    OneRegisterBits(op).0 + d * 16 + OneRegisterBits(op).1
  }

  lemma OneRegisterTable(op: Opcode)
    requires OneRegister(op)
    ensures OneRegisterIndex(OneRegisterBits(op).0 + OneRegisterBits(op).1) == op
  {
    hide OneRegisterIndex, ArithmeticNibble, StoreNibble, LoadNibble;
    ArithmeticTable(op);
    StoreTable(op);
    LoadTable(op);
  }

  lemma ArithmeticTable(op: Opcode)
    ensures ArithmeticNibble(op) < 16 ==> OneRegisterIndex(0x9400 + ArithmeticNibble(op)) == op
  {
  }

  lemma StoreTable(op: Opcode)
    ensures StoreNibble(op) < 16 ==> OneRegisterIndex(0x9200 + StoreNibble(op)) == op
  {
  }

  lemma LoadTable(op: Opcode)
    ensures LoadNibble(op) < 16 ==> OneRegisterIndex(0x9000 + LoadNibble(op)) == op
  {
  }

  lemma OneRegisterBitsRange(op: Opcode)
    requires OneRegister(op)
    ensures var (high, low) := OneRegisterBits(op);
            && op != dummy && low < 16
            && (high == 0x9000 || high == 0x9200 || (high == 0x9400 && low < 0xB && low != 8 && low != 9))
  {
    ArithmeticRange(op);
    hide ArithmeticNibble;
  }

  lemma ArithmeticRange(op: Opcode)
    ensures ArithmeticNibble(op) < 16 ==> ArithmeticNibble(op) < 0xB && ArithmeticNibble(op) != 8 && ArithmeticNibble(op) != 9
    ensures ArithmeticNibble(dummy) == 16
  {
  }

  lemma OneRegisterFields(high: nat, low: nat, d: nat)
    requires high == 0x9000 || high == 0x9200 || high == 0x9400
    requires low < 16 && d < 32
    ensures var opcode := high + d * 16 + low;
            && opcode / 512 == high / 512 && opcode / 1024 == high / 1024 && opcode % 16 == low
            && WithoutRd5(opcode) == high + low && Field(opcode, 16, 32) == d
  {
    var opcode, k := high + d * 16 + low, high / 512;
    DivisionIsUnique(opcode, 16, 32 * k + d, low);
    DivisionIsUnique(32 * k + d, 32, k, d);
    DivisionIsUnique(opcode, 512, k, 16 * d + low);
  }

  lemma UpperSixRange(upper: nat)
    requires 36 <= upper <= 37
    ensures UpperSixIndex(upper) == dummy
  {
  }

  /** Every one-register instruction decodes to itself, its register and the word after it. */
  lemma DecodeOneRegister(op: Opcode, d: nat, opcode2: nat)
    requires OneRegister(op) && d < 32
    ensures DecodeOpcode(EncodeOneRegister(op, d), opcode2) == DecodedOp(op, d, opcode2)
  {
    hide Field, DecodeImmediate, OneRegisterIndex, WithoutRd5, UpperSixIndex, OneRegisterBits;
    var opcode := EncodeOneRegister(op, d);
    OneRegisterTable(op);
    OneRegisterBitsRange(op);
    OneRegisterFields(OneRegisterBits(op).0, OneRegisterBits(op).1, d);
    NoOperandRange(opcode);
    UpperSixRange(opcode / 1024);
  }

  /** The upper four bits of the formats `xxxx KKKK dddd KKKK`. */
  function ImmediateBits(op: Opcode): nat {
    match op
    case ANDI => 0x7
    case CPI => 0x3
    case LDI => 0xE
    case ORI => 0x6
    case SBCI => 0x4
    case SUBI => 0x5
    case _ => 0
  }

  predicate Immediate(op: Opcode) {
    ImmediateBits(op) != 0
  }

  /** The formats `xxxx KKKK dddd KKKK`, for the registers from 16 on. */
  function EncodeImmediate(op: Opcode, d: nat, k: nat): nat
    requires Immediate(op) && 16 <= d < 32 && k < 256
  {
    ImmediateBits(op) * 4096 + k / 16 * 256 + (d - 16) * 16 + k % 16
  }

  /** Opcodes the tables do not hold. */
  lemma NotInTables(opcode1: nat)
    requires opcode1 / 4096 != 9 && opcode1 / 1024 >= 12
    ensures NoOperandIndex(opcode1) == dummy && UpperSixIndex(opcode1 / 1024) == dummy
    ensures OneRegisterIndex(WithoutRd5(opcode1)) == dummy
  {
    NoOperandRange(opcode1);
    OneRegisterRange(WithoutRd5(opcode1));
    assert WithoutRd5(opcode1) / 512 == opcode1 / 512 by {
      DivisionIsUnique(WithoutRd5(opcode1), 512, opcode1 / 512, opcode1 % 16);
    }
  }

  lemma OneRegisterRange(decode: nat)
    ensures OneRegisterIndex(decode) != dummy ==> 72 <= decode / 512 <= 74
  {
  }

  lemma FourNibbles(a: nat, b: nat, c: nat, d: nat)
    requires b < 16 && c < 16 && d < 16
    ensures var opcode := a * 4096 + b * 256 + c * 16 + d;
            && opcode / 4096 == a && Field(opcode, 256, 16) == b && Field(opcode, 16, 16) == c && opcode % 16 == d
            && opcode / 1024 >= 4 * a && opcode / 256 == 16 * a + b
  {
    var opcode := a * 4096 + b * 256 + c * 16 + d;
    DivisionIsUnique(opcode, 4096, a, b * 256 + c * 16 + d);
    DivisionIsUnique(opcode, 256, 16 * a + b, c * 16 + d);
    DivisionIsUnique(16 * a + b, 16, a, b);
    DivisionIsUnique(opcode, 16, 256 * a + 16 * b + c, d);
    DivisionIsUnique(256 * a + 16 * b + c, 16, 16 * a + b, c);
  }

  /** Every instruction with an immediate constant decodes to itself, its register and the constant. */
  lemma DecodeImmediates(op: Opcode, d: nat, k: nat, opcode2: nat)
    requires Immediate(op) && 16 <= d < 32 && k < 256
    ensures DecodeOpcode(EncodeImmediate(op, d, k), opcode2) == DecodedOp(op, d, k)
  {
    hide Field, DecodeRegisterBit, OneRegisterIndex, WithoutRd5, UpperSixIndex, NoOperandIndex;
    FourNibbles(ImmediateBits(op), k / 16, d - 16, k % 16);
    NotInTables(EncodeImmediate(op, d, k));
  }

  /** The formats of `RCALL` and `RJMP`: four bits and a relative address of twelve. */
  lemma DecodeRelative(call: bool, k: nat, opcode2: nat)
    requires k < 4096
    ensures DecodeOpcode((if call then 0xD000 else 0xC000) + k, opcode2)
            == DecodedOp(if call then RCALL else RJMP, k / 16 % 32, k)
  {
    hide OneRegisterIndex, UpperSixIndex, NoOperandIndex, WithoutRd5, OneBit, Field, DecodeIo, DecodeRegisterBit, DecodeImmediate;
    var a := if call then 0xD else 0xC;
    var opcode := a * 4096 + k;
    DivisionIsUnique(opcode, 4096, a, k);
    var b := opcode / 1024;
    assert 48 <= b < 56;
    NotInTables(opcode);
    PastImmediates(opcode, opcode2);
    RelativeIo(opcode);
    RelativeField(a, k);
  }

  lemma RelativeField(a: nat, k: nat)
    requires k < 4096
    ensures Field(a * 4096 + k, 16, 32) == k / 16 % 32
  {
    DivisionIsUnique(a * 4096 + k, 16, a * 256 + k / 16, k % 16);
    DivisionIsUnique(a * 256 + k / 16, 32, a * 8 + k / 16 / 32, k / 16 % 32);
  }

  /** The stages up to the ports leave relative jumps alone. */
  lemma PastImmediates(opcode: nat, opcode2: nat)
    requires opcode / 4096 == 0xC || opcode / 4096 == 0xD
    ensures DecodeImmediate(opcode, opcode2) == DecodeIo(opcode)
  {
    hide OneBit, Field, DecodeIo;
    UpperBits(opcode);
  }

  lemma RelativeIo(opcode: nat)
    requires opcode / 4096 == 0xC || opcode / 4096 == 0xD
    ensures DecodeIo(opcode)
            == DecodedOp(if opcode / 4096 == 0xD then RCALL else RJMP, Field(opcode, 16, 32), opcode % 4096)
  {
    hide Field, OneBit;
  }

  /** What the upper bits leave to the stages after the immediates. */
  lemma UpperBits(opcode: nat)
    requires opcode / 4096 == 0xC || opcode / 4096 == 0xD
    ensures opcode / 512 * 512 + 8 * Field(opcode, 8, 2) < 0xF000
    ensures opcode / 1024 * 1024 < 0xF000
    ensures Field(opcode, 0x4000, 4) == 3
    ensures 0xC000 <= opcode / 512 * 512 && 0xC000 <= opcode / 128 * 128 && 0xC0 <= opcode / 256
    ensures 0xC000 <= opcode / 2048 * 2048
  {
  }
}
