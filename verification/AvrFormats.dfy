/**
  The instruction formats `decode_opcode` takes apart beside those of one and two registers, constants
  and relative jumps: every word that encodes an instruction decodes to it and its operands.
 */
module AvrFormats {
  import opened CInt
  import opened AvrFlags
  import opened AvrOpcode

  function PowerOfTwo(n: nat): nat {
    if n == 0 then 1 else 2 * PowerOfTwo(n - 1)
  }

  lemma OneBitIsPower(n: nat)
    requires n < 8
    ensures OneBit(n) == PowerOfTwo(n)
  {
    assert PowerOfTwo(4) == 16;
    assert PowerOfTwo(3) == 8;
  }

  // ----- words without operands -------------------------------------------------------------

  /** The instructions that are one word each. */
  function WordOf(op: Opcode): nat {
    match op
    case NOP => 0x0000
    case EICALL => 0x9519
    case EIJMP => 0x9419
    case ELPM => 0x95D8
    case ESPM => 0x95F8
    case ICALL => 0x9509
    case IJMP => 0x9409
    case LPM => 0x95C8
    case RET => 0x9508
    case RETI => 0x9518
    case SLEEP => 0x9588
    case SPM => 0x95E8
    case WDR => 0x95A8
    case _ => 0xFFFF
  }

  lemma DecodeNoOperands(op: Opcode, opcode2: nat)
    requires WordOf(op) != 0xFFFF
    ensures DecodeOpcode(WordOf(op), opcode2) == DecodedOp(op, 0, 0)
  {
    hide UpperSixIndex, OneRegisterIndex, DecodeImmediate, Field;
  }

  // ----- which stages a word passes ---------------------------------------------------------

  /** Words of the groups 8, A, B and F are in none of the tables. */
  lemma PastTables(opcode1: nat, opcode2: nat)
    requires opcode1 / 4096 in {8, 10, 11, 15}
    ensures DecodeOpcode(opcode1, opcode2) == DecodeRegisterBit(opcode1, opcode2)
  {
    hide NoOperandIndex, UpperSixIndex, OneRegisterIndex, WithoutRd5, DecodeRegisterBit, Field;
    NotInTables(opcode1);
  }

  lemma PastRegisterBit(opcode1: nat, opcode2: nat)
    requires opcode1 / 4096 in {0, 8, 9, 10, 11}
    ensures DecodeRegisterBit(opcode1, opcode2) == DecodeDisplacement(opcode1, opcode2)
  {
    hide DecodeDisplacement, OneBit;
    assert opcode1 / 512 * 512 + 8 * Field(opcode1, 8, 2) < 0xF000;
  }

  lemma PastDisplacement(opcode1: nat, opcode2: nat)
    requires opcode1 / 4096 in {0, 9, 11}
    ensures DecodeDisplacement(opcode1, opcode2) == DecodeAddress(opcode1, opcode2)
  {
    hide DecodeAddress;
    assert opcode1 / 0x4000 == opcode1 / 4096 / 4;
  }

  lemma PastAddress(opcode1: nat, opcode2: nat)
    requires opcode1 / 256 !in {0x94, 0x95, 0x96, 0x97}
    ensures DecodeAddress(opcode1, opcode2) == DecodeIo(opcode1)
  {
    hide DecodeIo, OneBit;
  }

  /** Words behind the tables in the group 9: `CALL`, `JMP`, `BCLR`, `BSET`, and all from 0x9600 on. */
  lemma PastTablesOf9(opcode1: nat, opcode2: nat)
    requires opcode1 / 256 in {0x96, 0x97, 0x98, 0x99, 0x9A, 0x9B}
             || (opcode1 / 512 == 74 && opcode1 % 16 >= 12) || (opcode1 / 256 == 0x94 && opcode1 % 16 == 8)
    ensures DecodeOpcode(opcode1, opcode2) == DecodeAddress(opcode1, opcode2)
  {
    hide NoOperandIndex, UpperSixIndex, OneRegisterIndex, WithoutRd5, DecodeAddress, DecodeDisplacement, DecodeRegisterBit, Field;
    NotInTablesOf9(opcode1);
    assert opcode1 / 4096 == 9;
    PastRegisterBit(opcode1, opcode2);
    PastDisplacement(opcode1, opcode2);
  }

  lemma NotInTablesOf9(opcode1: nat)
    requires opcode1 / 256 in {0x96, 0x97, 0x98, 0x99, 0x9A, 0x9B}
             || (opcode1 / 512 == 74 && opcode1 % 16 >= 12) || (opcode1 / 256 == 0x94 && opcode1 % 16 == 8)
    ensures NoOperandIndex(opcode1) == dummy && UpperSixIndex(opcode1 / 1024) == dummy
    ensures OneRegisterIndex(WithoutRd5(opcode1)) == dummy
  {
    assert opcode1 / 1024 == 37 || opcode1 / 1024 == 38;
    NoOperandNibble(opcode1);
    hide NoOperandIndex;
    if opcode1 / 512 == 74 {
      assert WithoutRd5(opcode1) == 74 * 512 + opcode1 % 16;
      NoSuchOneRegister(opcode1 % 16);
    } else {
      DivisionIsUnique(WithoutRd5(opcode1), 512, opcode1 / 512, opcode1 % 16);
      OneRegisterRange(WithoutRd5(opcode1));
    }
  }

  lemma NoOperandNibble(opcode1: nat)
    ensures NoOperandIndex(opcode1) != dummy ==>
              opcode1 / 512 == 74 && (opcode1 % 16 == 9 || (opcode1 % 16 == 8 && opcode1 / 256 == 0x95))
  {
  }

  lemma NoSuchOneRegister(nibble: nat)
    requires nibble == 8 || 12 <= nibble < 16
    ensures OneRegisterIndex(74 * 512 + nibble) == dummy
  {
  }

  /** Words from 0x0100 to 0x03FF reach the multiplications. */
  lemma PastAll(opcode1: nat, opcode2: nat)
    requires opcode1 / 256 in {1, 2, 3}
    ensures DecodeOpcode(opcode1, opcode2) == DecodeMultiply(opcode1, Field(opcode1, 16, 32))
  {
    hide NoOperandIndex, UpperSixIndex, OneRegisterIndex, WithoutRd5, DecodeMultiply, DecodeAddress, DecodeDisplacement, DecodeRegisterBit, Field, OneBit;
    NotInTablesOf0(opcode1);
    assert opcode1 / 4096 == 0;
    PastRegisterBit(opcode1, opcode2);
    PastDisplacement(opcode1, opcode2);
    PastAddress(opcode1, opcode2);
  }

  lemma NotInTablesOf0(opcode1: nat)
    requires opcode1 / 256 in {1, 2, 3}
    ensures NoOperandIndex(opcode1) == dummy && UpperSixIndex(opcode1 / 1024) == dummy
    ensures OneRegisterIndex(WithoutRd5(opcode1)) == dummy
  {
    NoOperandNibble(opcode1);
    hide NoOperandIndex;
    assert opcode1 / 1024 == 0 && opcode1 / 512 <= 1;
    DivisionIsUnique(WithoutRd5(opcode1), 512, opcode1 / 512, opcode1 % 16);
    OneRegisterRange(WithoutRd5(opcode1));
  }

  /** The bits of a word above its lowest nibble. */
  lemma Nibble(x: nat, n: nat)
    requires n < 16
    ensures var w := x * 16 + n;
            && w / 16 == x && w % 16 == n && w % 8 == n % 8 && w % 2 == n % 2 && w / 2 % 8 == n / 2
            && w / 8 == 2 * x + n / 8 && w / 128 == x / 8 && w / 256 == x / 16
  {
    var w := x * 16 + n;
    DivisionIsUnique(w, 16, x, n);
    DivisionIsUnique(w, 8, 2 * x + n / 8, n % 8);
    DivisionIsUnique(w, 2, 8 * x + n / 2, n % 2);
    DivisionIsUnique(8 * x + n / 2, 8, x, n / 2);
    DivisionIsUnique(w, 128, x / 8, x % 8 * 16 + n);
    DivisionIsUnique(w, 256, x / 16, x % 16 * 16 + n);
  }

  lemma NibbleHigh(x: nat, n: nat)
    requires n < 16
    ensures var w := x * 16 + n;
            && w / 512 == x / 32 && w / 1024 == x / 64 && w / 2048 == x / 128 && w / 4096 == x / 256
            && w / 8192 == x / 512 && w / 0x4000 == x / 1024 && w / 0x1000 == x / 256
  {
    var w := x * 16 + n;
    DivisionIsUnique(w, 512, x / 32, x % 32 * 16 + n);
    DivisionIsUnique(w, 1024, x / 64, x % 64 * 16 + n);
    DivisionIsUnique(w, 2048, x / 128, x % 128 * 16 + n);
    DivisionIsUnique(w, 4096, x / 256, x % 256 * 16 + n);
    DivisionIsUnique(w, 8192, x / 512, x % 512 * 16 + n);
    DivisionIsUnique(w, 0x4000, x / 1024, x % 1024 * 16 + n);
  }

  lemma HighOf(h: nat, d: nat)
    requires d < 32
    ensures var x := h * 32 + d;
            && x / 32 == h && x % 32 == d && x / 64 == h / 2 && x / 128 == h / 4 && x / 256 == h / 8
            && x / 512 == h / 16 && x / 1024 == h / 32 && x / 16 == 2 * h + d / 16 && x / 8 == 4 * h + d / 8
  {
  }

  /** A word as its upper seven bits, five bits of an operand and its lowest nibble. */
  lemma Word(h: nat, d: nat, n: nat)
    requires d < 32 && n < 16
    ensures var w := h * 512 + d * 16 + n;
            && w / 512 == h && Field(w, 16, 32) == d && w % 16 == n && w % 8 == n % 8 && w % 2 == n % 2
            && w / 1024 == h / 2 && w / 2048 == h / 4 && w / 4096 == h / 8 && w / 8192 == h / 16 && w / 0x4000 == h / 32
            && w / 256 == 2 * h + d / 16 && w / 128 == 4 * h + d / 8
            && w / 8 == 64 * h + 2 * d + n / 8 && w / 2 % 8 == n / 2
  {
    var x := h * 32 + d;
    assert h * 512 + d * 16 + n == x * 16 + n;
    HighOf(h, d);
    Nibble(x, n);
    NibbleHigh(x, n);
  }

  /** The same for the fields the stages look at. */
  lemma WordFields(h: nat, d: nat, n: nat)
    requires d < 32 && n < 16
    ensures var w := h * 512 + d * 16 + n;
            && Field(w, 8, 2) == n / 8 && Field(w, 2, 8) == n / 2 && Field(w, 16, 8) == d % 8
            && Field(w, 512, 4) == h % 4 && Field(w, 512, 2) == h % 2 && Field(w, 1024, 4) == h / 2 % 4
            && Field(w, 8192, 2) == h / 16 % 2 && Field(w, 0x4000, 4) == h / 32 % 4 && Field(w, 0x1000, 2) == h / 8 % 2
  {
    Word(h, d, n);
    LowFields(h, d, n);
  }

  lemma LowFields(h: nat, d: nat, n: nat)
    requires d < 32 && n < 16
    ensures var w := h * 512 + d * 16 + n;
            Field(w, 8, 2) == n / 8 && Field(w, 2, 8) == n / 2 && Field(w, 16, 8) == d % 8
  {
    var w, x := h * 512 + d * 16 + n, h * 32 + d;
    DivisionIsUnique(w, 16, x, n);
    DivisionIsUnique(x, 8, 4 * h + d / 8, d % 8);
    DivisionIsUnique(w, 8, 2 * x + n / 8, n % 8);
    DivisionIsUnique(2 * x + n / 8, 2, x, n / 8);
    DivisionIsUnique(w, 2, 8 * x + n / 2, n % 2);
    DivisionIsUnique(8 * x + n / 2, 8, x, n / 2);
  }

  // ----- bits of registers, and branches ----------------------------------------------------

  function RegisterBitBase(op: Opcode): nat {
    match op
    case BLD => 0xF800
    case BST => 0xFA00
    case SBRC => 0xFC00
    case SBRS => 0xFE00
    case _ => 0
  }

  lemma BitOfRegister(op: Opcode, w: nat, opcode2: nat)
    requires RegisterBitBase(op) != 0 && w / 512 * 512 + 8 * Field(w, 8, 2) == RegisterBitBase(op)
    ensures DecodeRegisterBit(w, opcode2) == DecodedOp(op, Field(w, 16, 32), OneBit(w % 8))
  {
    hide Field, OneBit, DecodeDisplacement;
  }

  /** The format `1111 1xxd dddd 0bbb`. */
  lemma DecodeRegisterBits(op: Opcode, d: nat, b: nat, opcode2: nat)
    requires RegisterBitBase(op) != 0 && d < 32 && b < 8
    ensures DecodeOpcode(RegisterBitBase(op) + d * 16 + b, opcode2) == DecodedOp(op, d, PowerOfTwo(b))
  {
    hide DecodeOpcode, DecodeRegisterBit, OneBit, PowerOfTwo;
    var h := RegisterBitBase(op) / 512;
    var w := h * 512 + d * 16 + b;
    hide Field;
    Word(h, d, b);
    WordFields(h, d, b);
    RegisterBitHigh(op);
    PastTables(w, opcode2);
    BitOfRegister(op, w, opcode2);
    OneBitIsPower(b);
  }

  lemma RegisterBitHigh(op: Opcode)
    requires RegisterBitBase(op) != 0
    ensures RegisterBitBase(op) / 512 * 512 == RegisterBitBase(op) && RegisterBitBase(op) / 512 / 8 == 15
  {
  }

  lemma BranchParts(u: nat, k: nat, b: nat)
    requires k < 128 && b < 8
    ensures var w := u * 1024 + k * 8 + b;
            w / 1024 == u && Field(w, 8, 128) == k && w % 8 == b && w / 512 == 2 * u + k / 64 && w / 4096 == u / 4
  {
    var w := u * 1024 + k * 8 + b;
    DivisionIsUnique(w, 8, u * 128 + k, b);
    DivisionIsUnique(u * 128 + k, 128, u, k);
    DivisionIsUnique(w, 1024, u, k * 8 + b);
  }

  lemma Branch(w: nat, opcode2: nat)
    requires w / 1024 in {60, 61} && w / 512 < 124
    ensures DecodeRegisterBit(w, opcode2) == DecodedOp(if w / 1024 == 60 then BRBS else BRBC, Field(w, 8, 128), OneBit(w % 8))
  {
    assert w / 512 * 512 + 8 * Field(w, 8, 2) < 0xF800;
    hide OneBit, DecodeDisplacement, Field;
  }

  /** The format `1111 0xkk kkkk kbbb`: a branch while a status bit is clear, or while it is set. */
  lemma DecodeBranches(on_set: bool, k: nat, b: nat, opcode2: nat)
    requires k < 128 && b < 8
    ensures DecodeOpcode((if on_set then 0xF000 else 0xF400) + k * 8 + b, opcode2)
            == DecodedOp(if on_set then BRBS else BRBC, k, PowerOfTwo(b))
  {
    hide DecodeOpcode, DecodeRegisterBit, OneBit, PowerOfTwo, Field;
    var u := if on_set then 60 else 61;
    var w := u * 1024 + k * 8 + b;
    BranchParts(u, k, b);
    PastTables(w, opcode2);
    Branch(w, opcode2);
    OneBitIsPower(b);
  }

  /** For instance the word 0xF409 branches one word ahead while Z is clear. */
  lemma BranchIfNotEqual(opcode2: nat)
    ensures DecodeOpcode(0xF409, opcode2) == DecodedOp(BRBC, 1, 2)
  {
    hide DecodeOpcode;
    DecodeBranches(false, 1, 1, opcode2);
  }

  // ----- displacements ----------------------------------------------------------------------

  lemma Displacement(w: nat, opcode2: nat)
    requires Field(w, 0x4000, 4) == 2 && Field(w, 0x1000, 2) == 0
    ensures var store, y := Field(w, 512, 2) == 1, Field(w, 8, 2) == 1;
            DecodeDisplacement(w, opcode2)
            == DecodedOp(if store then (if y then STD_Y else STD_Z) else (if y then LDD_Y else LDD_Z),
                         Field(w, 16, 32), w % 8 + 8 * Field(w, 1024, 4) + 32 * Field(w, 8192, 2))
  {
    hide DecodeAddress;
  }

  lemma DisplacementHigh(q5: nat, q43: nat, store: nat)
    requires q5 < 2 && q43 < 4 && store < 2
    ensures var h := 64 + q5 * 16 + q43 * 2 + store;
            h % 2 == store && h / 2 % 4 == q43 && h / 16 % 2 == q5 && h / 32 == 2 && h / 8 % 2 == 0 && h / 8 in {8, 10}
  {
  }

  /** The format `10q0 qqxd dddd yqqq`. */
  function EncodeDisplacement(store: bool, y: bool, d: nat, q: nat): nat {
    0x8000 + q / 32 * 0x2000 + q / 8 % 4 * 0x400 + Flip(store) * 0x200 + d * 16 + Flip(y) * 8 + q % 8
  }

  /** Loads and stores through Y or Z with a displacement. */
  lemma DecodeDisplacements(store: bool, y: bool, d: nat, q: nat, opcode2: nat)
    requires d < 32 && q < 64
    ensures DecodeOpcode(EncodeDisplacement(store, y, d, q), opcode2)
            == DecodedOp(if store then (if y then STD_Y else STD_Z) else (if y then LDD_Y else LDD_Z), d, q)
  {
    hide DecodeOpcode, DecodeRegisterBit, DecodeDisplacement;
    var q5, q43, q20 := q / 32, q / 8 % 4, q % 8;
    assert q == q5 * 32 + q43 * 8 + q20;
    DisplacementWord(store, y, d, q5, q43, q20, opcode2);
  }

  lemma DisplacementWord(store: bool, y: bool, d: nat, q5: nat, q43: nat, q20: nat, opcode2: nat)
    requires d < 32 && q5 < 2 && q43 < 4 && q20 < 8
    ensures DecodeOpcode(0x8000 + q5 * 0x2000 + q43 * 0x400 + Flip(store) * 0x200 + d * 16 + Flip(y) * 8 + q20, opcode2)
            == DecodedOp(if store then (if y then STD_Y else STD_Z) else (if y then LDD_Y else LDD_Z),
                         d, q5 * 32 + q43 * 8 + q20)
  {
    hide DecodeOpcode, DecodeRegisterBit, DecodeDisplacement;
    var h, n := 64 + q5 * 16 + q43 * 2 + Flip(store), Flip(y) * 8 + q20;
    var w := h * 512 + d * 16 + n;
    hide Field;
    Word(h, d, n);
    WordFields(h, d, n);
    DisplacementHigh(q5, q43, Flip(store));
    PastTables(w, opcode2);
    PastRegisterBit(w, opcode2);
    Displacement(w, opcode2);
  }

  // ----- addresses and status bits ----------------------------------------------------------

  lemma Address(w: nat, opcode2: nat)
    requires w / 512 == 74 && Field(w, 2, 8) in {6, 7}
    ensures DecodeAddress(w, opcode2)
            == DecodedOp(if Field(w, 2, 8) == 7 then CALL else JMP, w % 2 + 2 * Field(w, 16, 32), opcode2)
  {
    hide Field, DecodeIo, OneBit;
  }

  /** The format `1001 010k kkkk 11xk` and a second word: 22 bits of an address. */
  lemma DecodeAddresses(call: bool, k: nat, opcode2: nat)
    requires k < 64
    ensures DecodeOpcode((if call then 0x940E else 0x940C) + k / 2 * 16 + k % 2, opcode2)
            == DecodedOp(if call then CALL else JMP, k, opcode2)
  {
    hide DecodeOpcode, DecodeAddress;
    var n := (if call then 14 else 12) + k % 2;
    var w := 74 * 512 + k / 2 * 16 + n;
    hide Field;
    Word(74, k / 2, n);
    WordFields(74, k / 2, n);
    PastTablesOf9(w, opcode2);
    Address(w, opcode2);
  }

  lemma StatusBit(w: nat, opcode2: nat)
    requires w / 128 in {0x128, 0x129} && w % 16 == 8 && w / 512 == 74 && Field(w, 2, 8) == 4
    ensures DecodeAddress(w, opcode2)
            == DecodedOp(if w / 128 == 0x128 then BSET else BCLR, OneBit(Field(w, 16, 8)), opcode2)
  {
    hide Field, DecodeIo, OneBit;
  }

  /** The format `1001 0100 xsss 1000`: clear or set a status bit. */
  lemma DecodeStatusBits(set_it: bool, b: nat, opcode2: nat)
    requires b < 8
    ensures DecodeOpcode((if set_it then 0x9408 else 0x9488) + b * 16, opcode2)
            == DecodedOp(if set_it then BSET else BCLR, PowerOfTwo(b), opcode2)
  {
    hide DecodeOpcode, DecodeAddress, OneBit, PowerOfTwo;
    var d := (if set_it then 0 else 8) + b;
    var w := 74 * 512 + d * 16 + 8;
    hide Field;
    Word(74, d, 8);
    WordFields(74, d, 8);
    PastTablesOf9(w, opcode2);
    StatusBit(w, opcode2);
    OneBitIsPower(b);
  }

  lemma Pair(w: nat, opcode2: nat)
    requires w / 256 in {0x96, 0x97} && w / 512 == 75 && w / 128 >= 300
    ensures DecodeAddress(w, opcode2)
            == DecodedOp(if w / 256 == 0x96 then ADIW else SBIW, 24 + 2 * Field(w, 16, 4), w % 16 + 16 * Field(w, 64, 4))
  {
    hide Field, DecodeIo, OneBit;
  }

  lemma PairParts(u: nat, k1: nat, r: nat, n: nat)
    requires k1 < 4 && r < 4 && n < 16
    ensures var w := u * 256 + k1 * 64 + r * 16 + n;
            && w / 256 == u && w % 16 == n && Field(w, 16, 4) == r && Field(w, 64, 4) == k1
            && w / 512 == u / 2 && w / 128 == 2 * u + k1 / 2
  {
    var w := u * 256 + k1 * 64 + r * 16 + n;
    DivisionIsUnique(w, 16, u * 16 + k1 * 4 + r, n);
    DivisionIsUnique(u * 16 + k1 * 4 + r, 4, u * 4 + k1, r);
    DivisionIsUnique(w, 64, u * 4 + k1, r * 16 + n);
    DivisionIsUnique(u * 4 + k1, 4, u, k1);
    DivisionIsUnique(w, 256, u, k1 * 64 + r * 16 + n);
  }

  /** The format `1001 011x KKdd KKKK`: a register pair from 24 on and a constant of six bits. */
  lemma DecodePairs(subtract: bool, d: nat, k: nat, opcode2: nat)
    requires d in {24, 26, 28, 30} && k < 64
    ensures DecodeOpcode((if subtract then 0x9700 else 0x9600) + k / 16 * 64 + (d - 24) / 2 * 16 + k % 16, opcode2)
            == DecodedOp(if subtract then SBIW else ADIW, d, k)
  {
    hide DecodeOpcode, DecodeAddress, Field;
    var u, r := if subtract then 0x97 else 0x96, (d - 24) / 2;
    var w := u * 256 + k / 16 * 64 + r * 16 + k % 16;
    PairParts(u, k / 16, r, k % 16);
    PastTablesOf9(w, opcode2);
    Pair(w, opcode2);
  }

  // ----- ports ------------------------------------------------------------------------------

  function PortBitBase(op: Opcode): nat {
    match op
    case CBI => 0x9800
    case SBIC => 0x9900
    case SBI => 0x9A00
    case SBIS => 0x9B00
    case _ => 0
  }

  lemma PortBit(op: Opcode, w: nat)
    requires PortBitBase(op) != 0 && w / 256 * 256 == PortBitBase(op)
    ensures DecodeIo(w) == DecodedOp(op, Field(w, 8, 32) + 32, OneBit(w % 8))
  {
    hide Field, OneBit, DecodeMultiply;
  }

  lemma PortBitParts(u: nat, a: nat, b: nat)
    requires a < 32 && b < 8
    ensures var w := u * 256 + a * 8 + b; w / 256 == u && Field(w, 8, 32) == a && w % 8 == b
  {
    var w := u * 256 + a * 8 + b;
    DivisionIsUnique(w, 8, u * 32 + a, b);
    DivisionIsUnique(u * 32 + a, 32, u, a);
    DivisionIsUnique(w, 256, u, a * 8 + b);
  }

  lemma PortBitHigh(op: Opcode)
    requires PortBitBase(op) != 0
    ensures PortBitBase(op) / 256 * 256 == PortBitBase(op) && PortBitBase(op) / 256 in {0x98, 0x99, 0x9A, 0x9B}
  {
  }

  /** The format `1001 10xx AAAA Abbb`; ports lie behind the 32 registers. */
  lemma DecodePortBits(op: Opcode, a: nat, b: nat, opcode2: nat)
    requires PortBitBase(op) != 0 && a < 32 && b < 8
    ensures DecodeOpcode(PortBitBase(op) + a * 8 + b, opcode2) == DecodedOp(op, a + 32, PowerOfTwo(b))
  {
    hide DecodeOpcode, DecodeAddress, DecodeIo, OneBit, PowerOfTwo, Field;
    PortBitHigh(op);
    var u := PortBitBase(op) / 256;
    var w := u * 256 + a * 8 + b;
    PortBitParts(u, a, b);
    PastTablesOf9(w, opcode2);
    PastAddress(w, opcode2);
    PortBit(op, w);
    OneBitIsPower(b);
  }

  lemma Port(w: nat)
    requires w / 2048 in {22, 23} && w / 256 >= 0xB0
    ensures DecodeIo(w)
            == DecodedOp(if w / 2048 == 23 then OUT else IN, Field(w, 16, 32), w % 16 + 16 * Field(w, 512, 4) + 32)
  {
    hide Field, OneBit, DecodeMultiply;
  }

  lemma PortHigh(output: bool, a: nat)
    requires a < 4
    ensures var h := (if output then 92 else 88) + a;
            h % 4 == a && h / 4 == (if output then 23 else 22) && h / 8 == 11
  {
  }

  /** The format `1011 xAAd dddd AAAA`. */
  lemma DecodePorts(output: bool, d: nat, a: nat, opcode2: nat)
    requires d < 32 && a < 64
    ensures DecodeOpcode((if output then 0xB800 else 0xB000) + a / 16 * 512 + d * 16 + a % 16, opcode2)
            == DecodedOp(if output then OUT else IN, d, a + 32)
  {
    hide DecodeOpcode, DecodeRegisterBit, DecodeDisplacement, DecodeAddress, DecodeIo;
    var h := (if output then 92 else 88) + a / 16;
    var w := h * 512 + d * 16 + a % 16;
    hide Field;
    Word(h, d, a % 16);
    WordFields(h, d, a % 16);
    PortHigh(output, a / 16);
    PastTables(w, opcode2);
    PastRegisterBit(w, opcode2);
    PastDisplacement(w, opcode2);
    PastAddress(w, opcode2);
    Port(w);
  }

  // ----- pairs of registers and multiplications ---------------------------------------------

  lemma ByteParts(u: nat, x: nat, n: nat)
    requires x < 16 && n < 16
    ensures var w := u * 256 + x * 16 + n; w / 256 == u && Field(w, 16, 16) == x && w % 16 == n
  {
    var w := u * 256 + x * 16 + n;
    DivisionIsUnique(w, 16, u * 16 + x, n);
    DivisionIsUnique(u * 16 + x, 16, u, x);
    DivisionIsUnique(w, 256, u, x * 16 + n);
  }

  /** The format `0000 0001 dddd rrrr`: register pairs by their even registers. */
  lemma DecodeMovw(d: nat, r: nat, opcode2: nat)
    requires d < 32 && d % 2 == 0 && r < 32 && r % 2 == 0
    ensures DecodeOpcode(0x0100 + d / 2 * 16 + r / 2, opcode2) == DecodedOp(MOVW, d, r)
  {
    hide DecodeOpcode, Field;
    ByteParts(1, d / 2, r / 2);
    PastAll(1 * 256 + d / 2 * 16 + r / 2, opcode2);
  }

  /** The format `0000 0010 dddd rrrr`, for the registers from 16 on. */
  lemma DecodeMuls(d: nat, r: nat, opcode2: nat)
    requires 16 <= d < 32 && 16 <= r < 32
    ensures DecodeOpcode(0x0200 + (d - 16) * 16 + (r - 16), opcode2) == DecodedOp(MULS, d, r)
  {
    hide DecodeOpcode, Field;
    ByteParts(2, d - 16, r - 16);
    PastAll(2 * 256 + (d - 16) * 16 + (r - 16), opcode2);
  }

  function MultiplyBase(op: Opcode): nat {
    match op
    case MULSU => 0x0300
    case FMUL => 0x0308
    case FMULS => 0x0380
    case FMULSU => 0x0388
    case _ => 0
  }

  lemma Multiplication(op: Opcode, w: nat, rd: nat)
    requires MultiplyBase(op) != 0 && w / 256 == 3 && w / 128 * 128 + 8 * Field(w, 8, 2) == MultiplyBase(op)
    ensures DecodeMultiply(w, rd) == DecodedOp(op, 16 + Field(w, 16, 8), 16 + w % 8)
  {
    hide Field;
  }

  /** The two bits that tell the multiplications apart, and the operands. */
  lemma MultiplyParts(high: nat, x: nat, low: nat, y: nat)
    requires high < 2 && low < 2 && x < 8 && y < 8
    ensures var w := 768 + high * 128 + x * 16 + low * 8 + y;
            && w / 256 == 3 && w / 128 == 6 + high && Field(w, 8, 2) == low && Field(w, 16, 8) == x && w % 8 == y
  {
    var w := 768 + high * 128 + x * 16 + low * 8 + y;
    DivisionIsUnique(w, 256, 3, high * 128 + x * 16 + low * 8 + y);
    DivisionIsUnique(w, 128, 6 + high, x * 16 + low * 8 + y);
    DivisionIsUnique(w, 16, 48 + high * 8 + x, low * 8 + y);
    DivisionIsUnique(48 + high * 8 + x, 8, 6 + high, x);
    DivisionIsUnique(w, 8, 96 + high * 16 + x * 2 + low, y);
    DivisionIsUnique(96 + high * 16 + x * 2 + low, 2, 48 + high * 8 + x, low);
  }

  /** The format `0000 0011 xddd xrrr`, for the registers from 16 to 23. */
  lemma DecodeMultiplications(op: Opcode, d: nat, r: nat, opcode2: nat)
    requires MultiplyBase(op) != 0 && 16 <= d < 24 && 16 <= r < 24
    ensures DecodeOpcode(MultiplyBase(op) + (d - 16) * 16 + (r - 16), opcode2) == DecodedOp(op, d, r)
  {
    hide DecodeOpcode, DecodeMultiply, Field;
    var high, low := if op == FMULS || op == FMULSU then 1 else 0, if op == FMUL || op == FMULSU then 1 else 0;
    assert MultiplyBase(op) == 768 + high * 128 + low * 8;
    hide MultiplyBase;
    var w := 768 + high * 128 + (d - 16) * 16 + low * 8 + (r - 16);
    MultiplyParts(high, d - 16, low, r - 16);
    PastAll(w, opcode2);
    Multiplication(op, w, Field(w, 16, 32));
  }
}
