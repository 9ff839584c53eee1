/** `decode_opcode` is exact: a word decodes to an instruction if and only if it encodes it. */
module AvrExact {
  import opened CInt
  import opened AvrFlags
  import opened AvrOpcode
  import opened AvrFormats

  // ----- the formats, one by one ------------------------------------------------------------

  predicate IsPlain(w: nat, dop: DecodedOp) {
    WordOf(dop.index) != 0xFFFF && w == WordOf(dop.index) && dop.oper1 == 0 && dop.oper2 == 0
  }

  predicate IsTwoRegister(w: nat, dop: DecodedOp) {
    TwoRegister(dop.index) && dop.oper1 < 32 && dop.oper2 < 32 && w == EncodeTwoRegister(dop.index, dop.oper1, dop.oper2)
  }

  predicate IsOneRegister(w: nat, opcode2: nat, dop: DecodedOp) {
    OneRegister(dop.index) && dop.oper1 < 32 && dop.oper2 == opcode2 && w == EncodeOneRegister(dop.index, dop.oper1)
  }

  predicate IsImmediate(w: nat, dop: DecodedOp) {
    Immediate(dop.index) && 16 <= dop.oper1 < 32 && dop.oper2 < 256 && w == EncodeImmediate(dop.index, dop.oper1, dop.oper2)
  }

  predicate IsRegisterBit(w: nat, dop: DecodedOp) {
    && RegisterBitBase(dop.index) != 0 && dop.oper1 < 32 && dop.oper2 == PowerOfTwo(w % 8)
    && w == RegisterBitBase(dop.index) + dop.oper1 * 16 + w % 8
  }

  predicate IsBranch(w: nat, dop: DecodedOp) {
    && (dop.index == BRBS || dop.index == BRBC) && dop.oper1 < 128 && dop.oper2 == PowerOfTwo(w % 8)
    && w == (if dop.index == BRBS then 0xF000 else 0xF400) + dop.oper1 * 8 + w % 8
  }

  predicate IsDisplacement(w: nat, dop: DecodedOp) {
    var op, a, b := dop.index, dop.oper1, dop.oper2;
    && (op == LDD_Y || op == LDD_Z || op == STD_Y || op == STD_Z) && a < 32 && b < 64
    && w == EncodeDisplacement(op == STD_Y || op == STD_Z, op == LDD_Y || op == STD_Y, a, b)
  }

  predicate IsAddress(w: nat, opcode2: nat, dop: DecodedOp) {
    && (dop.index == CALL || dop.index == JMP) && dop.oper1 < 64 && dop.oper2 == opcode2
    && w == (if dop.index == CALL then 0x940E else 0x940C) + dop.oper1 / 2 * 16 + dop.oper1 % 2
  }

  predicate IsStatusBit(w: nat, opcode2: nat, dop: DecodedOp) {
    && (dop.index == BSET || dop.index == BCLR) && dop.oper1 == PowerOfTwo(w / 16 % 8) && dop.oper2 == opcode2
    && w == (if dop.index == BSET then 0x9408 else 0x9488) + w / 16 % 8 * 16
  }

  predicate IsPair(w: nat, dop: DecodedOp) {
    var a, b := dop.oper1, dop.oper2;
    && (dop.index == ADIW || dop.index == SBIW) && a in {24, 26, 28, 30} && b < 64
    && w == (if dop.index == SBIW then 0x9700 else 0x9600) + b / 16 * 64 + (a - 24) / 2 * 16 + b % 16
  }

  predicate IsPortBit(w: nat, dop: DecodedOp) {
    && PortBitBase(dop.index) != 0 && 32 <= dop.oper1 < 64 && dop.oper2 == PowerOfTwo(w % 8)
    && w == PortBitBase(dop.index) + (dop.oper1 - 32) * 8 + w % 8
  }

  predicate IsPort(w: nat, dop: DecodedOp) {
    var a, b := dop.oper1, dop.oper2;
    && (dop.index == IN || dop.index == OUT) && a < 32 && 32 <= b < 96
    && w == (if dop.index == OUT then 0xB800 else 0xB000) + (b - 32) / 16 * 512 + a * 16 + (b - 32) % 16
  }

  predicate IsRelative(w: nat, dop: DecodedOp) {
    && (dop.index == RCALL || dop.index == RJMP) && dop.oper2 < 4096 && dop.oper1 == dop.oper2 / 16 % 32
    && w == (if dop.index == RCALL then 0xD000 else 0xC000) + dop.oper2
  }

  predicate IsMovw(w: nat, dop: DecodedOp) {
    var a, b := dop.oper1, dop.oper2;
    dop.index == MOVW && a < 32 && a % 2 == 0 && b < 32 && b % 2 == 0 && w == 0x0100 + a / 2 * 16 + b / 2
  }

  predicate IsMuls(w: nat, dop: DecodedOp) {
    var a, b := dop.oper1, dop.oper2;
    dop.index == MULS && 16 <= a < 32 && 16 <= b < 32 && w == 0x0200 + (a - 16) * 16 + (b - 16)
  }

  predicate IsMultiplication(w: nat, dop: DecodedOp) {
    var a, b := dop.oper1, dop.oper2;
    MultiplyBase(dop.index) != 0 && 16 <= a < 24 && 16 <= b < 24 && w == MultiplyBase(dop.index) + (a - 16) * 16 + (b - 16)
  }

  /** A word, with the one behind it, encodes an instruction and its operands in one of the formats. */
  predicate Encodes(w: nat, opcode2: nat, dop: DecodedOp) {
    || IsPlain(w, dop) || IsTwoRegister(w, dop) || IsOneRegister(w, opcode2, dop) || IsImmediate(w, dop)
    || IsRegisterBit(w, dop) || IsBranch(w, dop) || IsDisplacement(w, dop) || IsAddress(w, opcode2, dop)
    || IsStatusBit(w, opcode2, dop) || IsPair(w, dop) || IsPortBit(w, dop) || IsPort(w, dop)
    || IsRelative(w, dop) || IsMovw(w, dop) || IsMuls(w, dop) || IsMultiplication(w, dop)
  }

  // ----- what is encoded decodes ------------------------------------------------------------

  lemma EncodedTables(w: nat, opcode2: nat, dop: DecodedOp)
    ensures IsPlain(w, dop) || IsTwoRegister(w, dop) || IsOneRegister(w, opcode2, dop) || IsImmediate(w, dop) ==>
              DecodeOpcode(w, opcode2) == dop
  {
    hide DecodeOpcode, EncodeTwoRegister, EncodeOneRegister, EncodeImmediate, WordOf, TwoRegister, OneRegister, Immediate;
    var op, a, b := dop.index, dop.oper1, dop.oper2;
    if IsPlain(w, dop) {
      DecodeNoOperands(op, opcode2);
    } else if IsTwoRegister(w, dop) {
      DecodeTwoRegister(op, a, b, opcode2);
    } else if IsOneRegister(w, opcode2, dop) {
      DecodeOneRegister(op, a, opcode2);
    } else if IsImmediate(w, dop) {
      DecodeImmediates(op, a, b, opcode2);
    }
  }

  lemma EncodedBits(w: nat, opcode2: nat, dop: DecodedOp)
    ensures IsRegisterBit(w, dop) || IsPortBit(w, dop) ==> DecodeOpcode(w, opcode2) == dop
  {
    hide DecodeOpcode, PowerOfTwo, RegisterBitBase, PortBitBase;
    var op, a := dop.index, dop.oper1;
    if IsRegisterBit(w, dop) {
      DecodeRegisterBits(op, a, w % 8, opcode2);
    } else if IsPortBit(w, dop) {
      DecodePortBits(op, a - 32, w % 8, opcode2);
    }
  }

  lemma EncodedBranch(w: nat, opcode2: nat, dop: DecodedOp)
    ensures IsBranch(w, dop) ==> DecodeOpcode(w, opcode2) == dop
  {
    hide DecodeOpcode, PowerOfTwo;
    if IsBranch(w, dop) {
      DecodeBranches(dop.index == BRBS, dop.oper1, w % 8, opcode2);
    }
  }

  lemma EncodedStatusBit(w: nat, opcode2: nat, dop: DecodedOp)
    ensures IsStatusBit(w, opcode2, dop) ==> DecodeOpcode(w, opcode2) == dop
  {
    hide DecodeOpcode, PowerOfTwo;
    if IsStatusBit(w, opcode2, dop) {
      DecodeStatusBits(dop.index == BSET, w / 16 % 8, opcode2);
    }
  }

  lemma EncodedDisplacement(w: nat, opcode2: nat, dop: DecodedOp)
    ensures IsDisplacement(w, dop) ==> DecodeOpcode(w, opcode2) == dop
  {
    hide DecodeOpcode, EncodeDisplacement;
    if IsDisplacement(w, dop) {
      var op := dop.index;
      DecodeDisplacements(op == STD_Y || op == STD_Z, op == LDD_Y || op == STD_Y, dop.oper1, dop.oper2, opcode2);
    }
  }

  lemma EncodedAddress(w: nat, opcode2: nat, dop: DecodedOp)
    ensures IsAddress(w, opcode2, dop) || IsRelative(w, dop) ==> DecodeOpcode(w, opcode2) == dop
  {
    hide DecodeOpcode;
    if IsAddress(w, opcode2, dop) {
      DecodeAddresses(dop.index == CALL, dop.oper1, opcode2);
    } else if IsRelative(w, dop) {
      DecodeRelative(dop.index == RCALL, dop.oper2, opcode2);
    }
  }

  lemma EncodedPair(w: nat, opcode2: nat, dop: DecodedOp)
    ensures IsPair(w, dop) ==> DecodeOpcode(w, opcode2) == dop
  {
    hide DecodeOpcode;
    if IsPair(w, dop) {
      DecodePairs(dop.index == SBIW, dop.oper1, dop.oper2, opcode2);
    }
  }

  lemma EncodedPort(w: nat, opcode2: nat, dop: DecodedOp)
    ensures IsPort(w, dop) ==> DecodeOpcode(w, opcode2) == dop
  {
    hide DecodeOpcode;
    if IsPort(w, dop) {
      DecodePorts(dop.index == OUT, dop.oper1, dop.oper2 - 32, opcode2);
    }
  }

  lemma EncodedRegisters(w: nat, opcode2: nat, dop: DecodedOp)
    ensures IsMovw(w, dop) || IsMuls(w, dop) || IsMultiplication(w, dop) ==> DecodeOpcode(w, opcode2) == dop
  {
    hide DecodeOpcode, MultiplyBase;
    if IsMovw(w, dop) {
      DecodeMovw(dop.oper1, dop.oper2, opcode2);
    } else if IsMuls(w, dop) {
      DecodeMuls(dop.oper1, dop.oper2, opcode2);
    } else if IsMultiplication(w, dop) {
      DecodeMultiplications(dop.index, dop.oper1, dop.oper2, opcode2);
    }
  }

  lemma EncodedDecodes(w: nat, opcode2: nat, dop: DecodedOp)
    requires Encodes(w, opcode2, dop)
    ensures DecodeOpcode(w, opcode2) == dop
  {
    hide DecodeOpcode, IsPlain, IsTwoRegister, IsOneRegister, IsImmediate, IsRegisterBit, IsBranch, IsDisplacement, IsAddress;
    hide IsStatusBit, IsPair, IsPortBit, IsPort, IsRelative, IsMovw, IsMuls, IsMultiplication;
    EncodedTables(w, opcode2, dop);
    EncodedBits(w, opcode2, dop);
    EncodedBranch(w, opcode2, dop);
    EncodedStatusBit(w, opcode2, dop);
    EncodedDisplacement(w, opcode2, dop);
    EncodedAddress(w, opcode2, dop);
    EncodedPair(w, opcode2, dop);
    EncodedPort(w, opcode2, dop);
    EncodedRegisters(w, opcode2, dop);
  }

  // ----- what decodes is encoded ------------------------------------------------------------

  /** A word as its nibbles and its upper bits. */
  lemma Parts(w: nat)
    ensures w == w / 512 * 512 + Field(w, 16, 32) * 16 + w % 16
    ensures w == w / 1024 * 1024 + Field(w, 512, 2) * 512 + Field(w, 16, 32) * 16 + w % 16
    ensures w == w / 4096 * 4096 + Field(w, 256, 16) * 256 + Field(w, 16, 16) * 16 + w % 16
  {
    assert w / 512 == w / 16 / 32;
    assert w / 1024 == w / 512 / 2;
    assert w / 256 == w / 16 / 16;
    assert w / 4096 == w / 256 / 16;
  }

  lemma NoOperandBack(w: nat)
    requires w == 0 || NoOperandIndex(w) != dummy
    ensures var op := if w == 0 then NOP else NoOperandIndex(w); w == WordOf(op) && WordOf(op) != 0xFFFF
  {
  }

  lemma TwoRegisterBack(w: nat)
    requires UpperSixIndex(w / 1024) != dummy
    ensures var op := UpperSixIndex(w / 1024); TwoRegister(op) && TwoRegisterBase(op) == w / 1024 * 1024
  {
  }

  predicate IsIn(decode: nat, op: Opcode) {
    OneRegister(op) && OneRegisterBits(op).0 + OneRegisterBits(op).1 == decode
  }

  lemma OneRegisterBack(decode: nat)
    requires OneRegisterIndex(decode) != dummy
    ensures IsIn(decode, OneRegisterIndex(decode))
  {
    OneRegisterNibbles(decode);
    hide OneRegisterIndex, ArithmeticNibble, StoreNibble, LoadNibble, IsIn;
    var op := OneRegisterIndex(decode);
    if decode < 0x9010 {
      LoadBack(decode - 0x9000);
    } else if decode < 0x9210 {
      StoreBack(decode - 0x9200);
    } else {
      ArithmeticBack(decode - 0x9400);
    }
    InTable(op, decode);
  }

  lemma InTable(op: Opcode, decode: nat)
    ensures ArithmeticNibble(op) < 16 && decode == 0x9400 + ArithmeticNibble(op) ==> IsIn(decode, op)
    ensures StoreNibble(op) < 16 && decode == 0x9200 + StoreNibble(op) ==> IsIn(decode, op)
    ensures LoadNibble(op) < 16 && decode == 0x9000 + LoadNibble(op) ==> IsIn(decode, op)
  {
    NibblesExclude(op);
    hide ArithmeticNibble, StoreNibble, LoadNibble;
  }

  lemma OneRegisterNibbles(decode: nat)
    requires OneRegisterIndex(decode) != dummy
    ensures 0x9000 <= decode < 0x9010 || 0x9200 <= decode < 0x9210 || 0x9400 <= decode < 0x9410
  {
  }

  lemma NibblesExclude(op: Opcode)
    ensures ArithmeticNibble(op) < 16 ==> StoreNibble(op) == 16 && LoadNibble(op) == 16
    ensures StoreNibble(op) < 16 ==> LoadNibble(op) == 16
  {
  }

  lemma ArithmeticBack(n: nat)
    requires n < 16 && OneRegisterIndex(0x9400 + n) != dummy
    ensures ArithmeticNibble(OneRegisterIndex(0x9400 + n)) == n
  {
  }

  lemma StoreBack(n: nat)
    requires n < 16 && OneRegisterIndex(0x9200 + n) != dummy
    ensures StoreNibble(OneRegisterIndex(0x9200 + n)) == n
  {
  }

  lemma LoadBack(n: nat)
    requires n < 16 && OneRegisterIndex(0x9000 + n) != dummy
    ensures LoadNibble(OneRegisterIndex(0x9000 + n)) == n
  {
  }

  lemma RegisterOf(n: nat, high: nat)
    requires n < 16 && high < 2
    ensures var r := n + 16 * high; r < 32 && r / 16 == high && r % 16 == n
  {
  }

  /** What the tables find is what they hold. */
  lemma TablesBack(w: nat, opcode2: nat)
    requires w == 0 || NoOperandIndex(w) != dummy || UpperSixIndex(w / 1024) != dummy || OneRegisterIndex(WithoutRd5(w)) != dummy
    ensures var dop := DecodeOpcode(w, opcode2); IsPlain(w, dop) || IsTwoRegister(w, dop) || IsOneRegister(w, opcode2, dop)
  {
    hide NoOperandIndex, UpperSixIndex, OneRegisterIndex, DecodeImmediate, WordOf, TwoRegisterBase, OneRegisterBits, Field;
    Parts(w);
    if w == 0 || NoOperandIndex(w) != dummy {
      NoOperandBack(w);
    } else if UpperSixIndex(w / 1024) != dummy {
      TwoRegisterBack(w);
      RegisterOf(w % 16, Field(w, 512, 2));
    } else {
      OneRegisterBack(WithoutRd5(w));
    }
  }

  lemma ImmediateBack(w: nat, opcode2: nat)
    requires w < 65536
    ensures var dop := DecodeImmediate(w, opcode2);
            IsImmediate(w, dop) || (dop == DecodeRegisterBit(w, opcode2) && w / 4096 !in {3, 4, 5, 6, 7, 14})
  {
    hide DecodeRegisterBit, Field;
    Parts(w);
    ByteOfNibbles(w % 16, Field(w, 256, 16));
  }

  lemma ByteOfNibbles(n: nat, high: nat)
    requires n < 16 && high < 16
    ensures var k := n + 16 * high; k < 256 && k / 16 == high && k % 16 == n
  {
  }

  lemma BitParts(w: nat)
    ensures w == w / 512 * 512 + Field(w, 16, 32) * 16 + Field(w, 8, 2) * 8 + w % 8
    ensures w == w / 1024 * 1024 + Field(w, 8, 128) * 8 + w % 8
    ensures w == w / 256 * 256 + Field(w, 8, 32) * 8 + w % 8
  {
    assert w / 16 == w / 8 / 2;
    assert w / 512 == w / 16 / 32;
    assert w / 1024 == w / 8 / 128;
    assert w / 256 == w / 8 / 32;
  }

  lemma RegisterBitBack(w: nat, opcode2: nat)
    ensures var dop := DecodeRegisterBit(w, opcode2);
            IsRegisterBit(w, dop) || IsBranch(w, dop) || dop == DecodeDisplacement(w, opcode2)
  {
    hide DecodeDisplacement, Field, OneBit, PowerOfTwo;
    BitParts(w);
    OneBitIsPower(w % 8);
  }

  lemma DisplacementParts(w: nat)
    requires w < 65536 && Field(w, 0x4000, 4) == 2 && Field(w, 0x1000, 2) == 0
    ensures w == 0x8000 + Field(w, 8192, 2) * 0x2000 + Field(w, 1024, 4) * 0x400 + Field(w, 512, 2) * 0x200
                 + Field(w, 16, 32) * 16 + Field(w, 8, 2) * 8 + w % 8
  {
    BitParts(w);
    HighParts(w);
  }

  lemma HighParts(w: nat)
    ensures w / 512 == w / 0x4000 * 32 + w / 8192 % 2 * 16 + w / 4096 % 2 * 8 + w / 1024 % 4 * 2 + w / 512 % 2
  {
    assert w / 1024 == w / 512 / 2;
    assert w / 4096 == w / 1024 / 4;
    assert w / 8192 == w / 4096 / 2;
    assert w / 0x4000 == w / 8192 / 2;
  }

  lemma DisplacementBack(w: nat, opcode2: nat)
    requires w < 65536
    ensures var dop := DecodeDisplacement(w, opcode2);
            IsDisplacement(w, dop) || dop == DecodeAddress(w, opcode2)
  {
    hide DecodeAddress, Field, EncodeDisplacement, DecodeDisplacement;
    if Field(w, 0x4000, 4) == 2 && Field(w, 0x1000, 2) == 0 {
      Displacement(w, opcode2);
      DisplacementOf(w);
    } else {
      NoDisplacement(w, opcode2);
    }
  }

  lemma NoDisplacement(w: nat, opcode2: nat)
    requires !(Field(w, 0x4000, 4) == 2 && Field(w, 0x1000, 2) == 0)
    ensures DecodeDisplacement(w, opcode2) == DecodeAddress(w, opcode2)
  {
    hide DecodeAddress, Field;
  }

  lemma DisplacementOf(w: nat)
    requires w < 65536 && Field(w, 0x4000, 4) == 2 && Field(w, 0x1000, 2) == 0
    ensures var q := w % 8 + 8 * Field(w, 1024, 4) + 32 * Field(w, 8192, 2);
            q < 64 && w == EncodeDisplacement(Field(w, 512, 2) == 1, Field(w, 8, 2) == 1, Field(w, 16, 32), q)
  {
    hide Field;
    DisplacementParts(w);
    SixBits(w % 8, Field(w, 1024, 4), Field(w, 8192, 2));
  }

  lemma SixBits(low: nat, mid: nat, high: nat)
    requires low < 8 && mid < 4 && high < 2
    ensures var q := low + 8 * mid + 32 * high; q < 64 && q / 32 == high && q / 8 % 4 == mid && q % 8 == low
  {
  }

  lemma AddressParts(w: nat)
    ensures w == w / 512 * 512 + Field(w, 16, 32) * 16 + 2 * Field(w, 2, 8) + w % 2
    ensures w == w / 128 * 128 + Field(w, 16, 8) * 16 + w % 16
    ensures w == w / 256 * 256 + Field(w, 64, 4) * 64 + Field(w, 16, 4) * 16 + w % 16
  {
    assert w / 16 == w / 2 / 8;
    assert w / 512 == w / 16 / 32;
    assert w / 128 == w / 16 / 8;
    assert w / 64 == w / 16 / 4;
    assert w / 256 == w / 64 / 4;
  }

  /** The conditions of the address stages, by the bits they test. */
  lemma AddressStages(w: nat)
    ensures w / 512 * 512 + 2 * Field(w, 2, 8) == 0x940E <==> w / 512 == 74 && Field(w, 2, 8) == 7
    ensures w / 512 * 512 + 2 * Field(w, 2, 8) == 0x940C <==> w / 512 == 74 && Field(w, 2, 8) == 6
    ensures w / 128 * 128 + w % 16 == 0x9488 <==> w / 128 == 0x129 && w % 16 == 8
    ensures w / 128 * 128 + w % 16 == 0x9408 <==> w / 128 == 0x128 && w % 16 == 8
  {
  }

  lemma AddressBack(w: nat, opcode2: nat)
    requires w < 65536
    ensures var dop := DecodeAddress(w, opcode2);
            IsAddress(w, opcode2, dop) || IsStatusBit(w, opcode2, dop) || IsPair(w, dop) || dop == DecodeIo(w)
  {
    AddressStages(w);
    hide Field, DecodeAddress, IsAddress, IsStatusBit, IsPair;
    if w / 512 == 74 && Field(w, 2, 8) in {6, 7} {
      Address(w, opcode2);
      AddressOf(w, opcode2);
    } else if w / 128 in {0x128, 0x129} && w % 16 == 8 {
      StatusBitOf(w, opcode2);
    } else if w / 256 in {0x96, 0x97} {
      PairOf(w, opcode2);
    } else {
      NoAddress(w, opcode2);
    }
  }

  lemma NoAddress(w: nat, opcode2: nat)
    requires !(w / 512 == 74 && Field(w, 2, 8) in {6, 7}) && !(w / 128 in {0x128, 0x129} && w % 16 == 8)
    requires w / 256 !in {0x96, 0x97}
    ensures DecodeAddress(w, opcode2) == DecodeIo(w)
  {
    AddressStages(w);
    hide Field, DecodeIo, OneBit;
  }

  lemma AddressOf(w: nat, opcode2: nat)
    requires w / 512 == 74 && Field(w, 2, 8) in {6, 7}
    ensures IsAddress(w, opcode2, DecodedOp(if Field(w, 2, 8) == 7 then CALL else JMP, w % 2 + 2 * Field(w, 16, 32), opcode2))
  {
    AddressParts(w);
    TwoBits(w % 2, Field(w, 16, 32));
    hide Field;
  }

  lemma StatusBitOf(w: nat, opcode2: nat)
    requires w / 128 in {0x128, 0x129} && w % 16 == 8
    ensures IsStatusBit(w, opcode2, DecodeAddress(w, opcode2))
  {
    AddressParts(w);
    LowNibbleEight(w);
    hide Field, OneBit, PowerOfTwo, DecodeAddress;
    StatusBit(w, opcode2);
    OneBitIsPower(Field(w, 16, 8));
    StatusField(w);
  }

  lemma LowNibbleEight(w: nat)
    requires w / 128 in {0x128, 0x129} && w % 16 == 8
    ensures w / 512 == 74 && Field(w, 2, 8) == 4
  {
    assert w / 512 == w / 128 / 4;
    var x := w / 16;
    DivisionIsUnique(w, 2, 8 * x + 4, 0);
    DivisionIsUnique(8 * x + 4, 8, x, 4);
  }

  lemma PairOf(w: nat, opcode2: nat)
    requires w / 256 in {0x96, 0x97}
    ensures IsPair(w, DecodeAddress(w, opcode2))
  {
    hide Field, DecodeAddress, IsPair;
    PairHigh(w);
    Pair(w, opcode2);
    PairWord(w);
    PairIs(w, w / 256 == 0x97, w % 16, Field(w, 16, 4), Field(w, 64, 4));
  }

  lemma PairWord(w: nat)
    requires w / 256 in {0x96, 0x97}
    ensures w == (if w / 256 == 0x97 then 0x9700 else 0x9600) + Field(w, 64, 4) * 64 + Field(w, 16, 4) * 16 + w % 16
  {
    AddressParts(w);
    hide Field;
  }

  lemma PairIs(w: nat, subtract: bool, n: nat, r: nat, high: nat)
    requires n < 16 && r < 4 && high < 4
    requires w == (if subtract then 0x9700 else 0x9600) + high * 64 + r * 16 + n
    ensures IsPair(w, DecodedOp(if subtract then SBIW else ADIW, 24 + 2 * r, n + 16 * high))
  {
    PairField(n, r, high);
  }

  lemma PairHigh(w: nat)
    requires w / 256 in {0x96, 0x97}
    ensures w / 512 == 75 && w / 128 >= 300
  {
    assert w / 512 == w / 256 / 2;
    assert w / 128 / 2 == w / 256;
  }

  lemma TwoBits(low: nat, high: nat)
    requires low < 2 && high < 32
    ensures var k := low + 2 * high; k < 64 && k / 2 == high && k % 2 == low
  {
  }

  lemma StatusField(w: nat)
    ensures Field(w, 16, 8) == w / 16 % 8
  {
  }

  lemma PairField(n: nat, r: nat, high: nat)
    requires n < 16 && r < 4 && high < 4
    ensures var d, k := 24 + 2 * r, n + 16 * high; d in {24, 26, 28, 30} && (d - 24) / 2 == r && k < 64 && k / 16 == high && k % 16 == n
  {
  }

  lemma IoParts(w: nat)
    ensures w == w / 2048 * 2048 + Field(w, 512, 4) * 512 + Field(w, 16, 32) * 16 + w % 16
    ensures w == w / 4096 * 4096 + w % 4096 && Field(w, 16, 32) == w % 4096 / 16 % 32
  {
    assert w / 512 == w / 16 / 32;
    assert w / 2048 == w / 512 / 4;
    RelativeField(w / 4096, w % 4096);
  }

  lemma IoBack(w: nat)
    requires w < 65536
    ensures var dop := DecodeIo(w);
            IsPortBit(w, dop) || IsPort(w, dop) || IsRelative(w, dop) || dop == DecodeMultiply(w, Field(w, 16, 32))
  {
    hide Field, DecodeIo, IsPortBit, IsPort, IsRelative, DecodeMultiply;
    if w / 256 in {0x98, 0x99, 0x9A, 0x9B} {
      PortBitOf(w);
    } else if w / 2048 in {22, 23} {
      PortOf(w);
    } else if w / 4096 in {12, 13} {
      RelativeOf(w);
    } else {
      NoIo(w);
    }
  }

  lemma NoIo(w: nat)
    requires w / 256 !in {0x98, 0x99, 0x9A, 0x9B} && w / 2048 !in {22, 23} && w / 4096 !in {12, 13}
    ensures DecodeIo(w) == DecodeMultiply(w, Field(w, 16, 32))
  {
    hide Field, OneBit, DecodeMultiply;
  }

  lemma PortBitOf(w: nat)
    requires w / 256 in {0x98, 0x99, 0x9A, 0x9B}
    ensures IsPortBit(w, DecodeIo(w))
  {
    BitParts(w);
    hide Field, OneBit, PowerOfTwo, DecodeIo;
    var op := if w / 256 == 0x98 then CBI else if w / 256 == 0x99 then SBIC else if w / 256 == 0x9A then SBI else SBIS;
    PortBit(op, w);
    OneBitIsPower(w % 8);
  }

  lemma PortOf(w: nat)
    requires w / 2048 in {22, 23}
    ensures IsPort(w, DecodeIo(w))
  {
    IoParts(w);
    PortAbove(w);
    hide Field, DecodeIo;
    Port(w);
    SixBitPort(w % 16, Field(w, 512, 4));
  }

  lemma PortAbove(w: nat)
    requires w / 2048 in {22, 23}
    ensures w / 256 >= 0xB0
  {
  }

  lemma RelativeOf(w: nat)
    requires w / 4096 in {12, 13}
    ensures IsRelative(w, DecodeIo(w))
  {
    IoParts(w);
    hide Field, DecodeIo;
    RelativeIo(w);
  }

  lemma SixBitPort(n: nat, high: nat)
    requires n < 16 && high < 4
    ensures var k := n + 16 * high; k < 64 && k / 16 == high && k % 16 == n
  {
  }

  lemma MultiplyWords(w: nat)
    ensures w == w / 256 * 256 + Field(w, 16, 16) * 16 + w % 16
    ensures w == w / 128 * 128 + Field(w, 16, 8) * 16 + Field(w, 8, 2) * 8 + w % 8
  {
    assert w / 16 == w / 8 / 2;
    assert w / 256 == w / 16 / 16;
    assert w / 128 == w / 16 / 8;
  }

  lemma MultiplyBack(w: nat, rd: nat)
    ensures var dop := DecodeMultiply(w, rd);
            IsMovw(w, dop) || IsMuls(w, dop) || IsMultiplication(w, dop) || (dop.index == ILLEGAL && dop.oper2 == w)
  {
    hide Field, IsMovw, IsMuls, IsMultiplication;
    if w / 256 == 1 {
      MovwOf(w);
    } else if w / 256 == 2 {
      MulsOf(w);
    } else {
      MultiplicationOf(w, MULSU);
      MultiplicationOf(w, FMUL);
      MultiplicationOf(w, FMULS);
      MultiplicationOf(w, FMULSU);
    }
  }

  lemma MovwOf(w: nat)
    requires w / 256 == 1
    ensures IsMovw(w, DecodedOp(MOVW, 2 * Field(w, 16, 16), 2 * (w % 16)))
  {
    MultiplyWords(w);
    hide Field;
  }

  lemma MulsOf(w: nat)
    requires w / 256 == 2
    ensures IsMuls(w, DecodedOp(MULS, 16 + Field(w, 16, 16), 16 + w % 16))
  {
    MultiplyWords(w);
    hide Field;
  }

  lemma MultiplicationOf(w: nat, op: Opcode)
    requires MultiplyBase(op) != 0
    ensures w / 128 * 128 + 8 * Field(w, 8, 2) == MultiplyBase(op) ==>
              IsMultiplication(w, DecodedOp(op, 16 + Field(w, 16, 8), 16 + w % 8))
  {
    MultiplyWords(w);
    hide Field, MultiplyBase;
  }

  lemma DecodedIsEncoded(w: nat, opcode2: nat)
    requires w < 65536
    ensures var dop := DecodeOpcode(w, opcode2); Encodes(w, opcode2, dop) || (dop.index == ILLEGAL && dop.oper2 == w)
  {
    hide NoOperandIndex, UpperSixIndex, OneRegisterIndex, WithoutRd5, Field, DecodeImmediate, DecodeRegisterBit, DecodeDisplacement, DecodeAddress, DecodeIo, DecodeMultiply;
    hide IsPlain, IsTwoRegister, IsOneRegister, IsImmediate, IsRegisterBit, IsBranch, IsDisplacement, IsAddress;
    hide IsStatusBit, IsPair, IsPortBit, IsPort, IsRelative, IsMovw, IsMuls, IsMultiplication;
    if w == 0 || NoOperandIndex(w) != dummy || UpperSixIndex(w / 1024) != dummy || OneRegisterIndex(WithoutRd5(w)) != dummy {
      TablesBack(w, opcode2);
    } else {
      ImmediateBack(w, opcode2);
      RegisterBitBack(w, opcode2);
      DisplacementBack(w, opcode2);
      AddressBack(w, opcode2);
      IoBack(w);
      MultiplyBack(w, Field(w, 16, 32));
    }
  }

  /**
    For every word and the word behind it: it decodes to an instruction and its operands if and only if
    it encodes them; every word that encodes nothing is illegal.
   */
  lemma DecodeIsExact(w: nat, opcode2: nat, dop: DecodedOp)
    requires w < 65536 && dop.index != ILLEGAL
    ensures DecodeOpcode(w, opcode2) == dop <==> Encodes(w, opcode2, dop)
  {
    hide DecodeOpcode, Encodes;
    DecodedIsEncoded(w, opcode2);
    if Encodes(w, opcode2, dop) {
      EncodedDecodes(w, opcode2, dop);
    }
  }
}
