/** `gen-flag-tables.c` and the 8-bit arithmetic of `avrtest.c`: flags looked up in generated tables. */
module AvrFlags {

  type byte = x: int | 0 <= x < 256

  /** The offset of the port addresses, for the instruction set without the XMEGA extensions. */
  const IOBASE := 0x20

  /** The bits of the status register; a register value is the set of its one bits. */
  datatype Flag = C | Z | N | V | S | H | T | I

  type Sreg = set<Flag>

  /** Whether bit `k` of a two's-complement integer is set, for the weights 2^k the code tests. */
  predicate Bit(x: int, weight: int)
    requires weight > 0
  {
    x / weight % 2 == 1
  }

  function Flip(b: bool): int {
    if b then 1 else 0
  }

  /** The two's-complement value of a byte. */
  function Signed(x: byte): int {
    if x < 128 then x else x - 256
  }

  // ----- the generator ----------------------------------------------------------------------

  /** `update_zns_flags`. */
  function UpdateZns(result: int, sreg: Sreg): Sreg {
    var s1 := if result % 256 == 0 then sreg + {Z} else sreg;
    var s2 := if Bit(result, 128) then s1 + {N} else s1;
    if (N in s2) != (V in s2) then s2 + {S} else s2
  }

  function HalfCarryEntry(i: int, result: int): bool {
    (Bit(i, 0x1000) && Bit(i, 0x800)) || (!Bit(result, 8) && (Bit(i, 0x1000) || Bit(i, 0x800)))
  }

  function Add8Entry(i: nat): Sreg {
    var result := i % 512;
    var v := if Bit(i, 0x400) == Bit(i, 0x200) && Bit(result, 128) != Bit(i, 0x400) then {V} else {};
    var c := if Bit(result, 256) then {C} else {};
    var h := if HalfCarryEntry(i, result) then {H} else {};
    UpdateZns(result, v + c + h)
  }

  function Sub8Entry(i: nat): Sreg {
    var result := i % 512;
    var v := if Bit(result, 128) == Bit(i, 0x200) && Bit(i, 0x400) != Bit(i, 0x200) then {V} else {};
    var c := if Bit(result, 256) then {C} else {};
    var h := if HalfCarryEntry(i, result) then {H} else {};
    UpdateZns(result, v + c + h)
  }

  function Ror8Entry(i: nat): Sreg {
    var result := i / 2;
    var c := if i % 2 == 1 then {C} else {};
    var v := if Bit(result, 128) != (i % 2 == 1) then {V} else {};
    UpdateZns(result, c + v)
  }

  /** The loop that emits `flag_update_table_add8`. */
  method GenerateAdd8() returns (table: array<Sreg>)
    ensures fresh(table) && table.Length == 8192
    ensures forall i :: 0 <= i < 8192 ==> table[i] == Add8Entry(i)
  {
    hide UpdateZns, Bit, HalfCarryEntry;
    table := new Sreg[8192](_ => {});
    var i := 0;
    while i < 8192
      invariant 0 <= i <= 8192
      invariant forall j :: 0 <= j < i ==> table[j] == Add8Entry(j)
    {
      var result := i % 512;
      var sreg: Sreg := {};
      if Bit(i, 0x400) == Bit(i, 0x200) && Bit(result, 128) != Bit(i, 0x400) {
        sreg := sreg + {V};
      }
      if Bit(result, 256) {
        sreg := sreg + {C};
      }
      if HalfCarryEntry(i, result) {
        sreg := sreg + {H};
      }
      assert Add8Entry(i) == UpdateZns(result, sreg) by {
        assert sreg == (if V in sreg then {V} else {}) + (if C in sreg then {C} else {}) + (if H in sreg then {H} else {});
      }
      table[i] := UpdateZns(result, sreg);
      i := i + 1;
    }
  }

  /** The loop that emits `flag_update_table_sub8`. */
  method GenerateSub8() returns (table: array<Sreg>)
    ensures fresh(table) && table.Length == 8192
    ensures forall i :: 0 <= i < 8192 ==> table[i] == Sub8Entry(i)
  {
    hide UpdateZns, Bit, HalfCarryEntry;
    table := new Sreg[8192](_ => {});
    var i := 0;
    while i < 8192
      invariant 0 <= i <= 8192
      invariant forall j :: 0 <= j < i ==> table[j] == Sub8Entry(j)
    {
      var result := i % 512;
      var sreg: Sreg := {};
      if Bit(result, 128) == Bit(i, 0x200) && Bit(i, 0x400) != Bit(i, 0x200) {
        sreg := sreg + {V};
      }
      if Bit(result, 256) {
        sreg := sreg + {C};
      }
      if HalfCarryEntry(i, result) {
        sreg := sreg + {H};
      }
      assert Sub8Entry(i) == UpdateZns(result, sreg) by {
        assert sreg == (if V in sreg then {V} else {}) + (if C in sreg then {C} else {}) + (if H in sreg then {H} else {});
      }
      table[i] := UpdateZns(result, sreg);
      i := i + 1;
    }
  }

  /** The loop that emits `flag_update_table_ror8`. */
  method GenerateRor8() returns (table: array<Sreg>)
    ensures fresh(table) && table.Length == 512
    ensures forall i :: 0 <= i < 512 ==> table[i] == Ror8Entry(i)
  {
    hide UpdateZns, Bit, HalfCarryEntry;
    table := new Sreg[512](_ => {});
    var i := 0;
    while i < 512
      invariant 0 <= i <= 512
      invariant forall j :: 0 <= j < i ==> table[j] == Ror8Entry(j)
    {
      var result := i / 2;
      var sreg: Sreg := {};
      if i % 2 == 1 {
        sreg := sreg + {C};
      }
      if Bit(result, 128) != (i % 2 == 1) {
        sreg := sreg + {V};
      }
      assert Ror8Entry(i) == UpdateZns(result, sreg) by {
        assert sreg == (if C in sreg then {C} else {}) + (if V in sreg then {V} else {});
      }
      table[i] := UpdateZns(result, sreg);
      i := i + 1;
    }
  }

  // ----- the index --------------------------------------------------------------------------

  /** `FUT_ADD_SUB_INDEX`: the fields of the index do not overlap. */
  function Index(v1: byte, v2: byte, res: int): (i: nat)
    ensures i < 8192
  {
    Flip(Bit(v1, 8)) * 0x1000 + Flip(Bit(v2, 8)) * 0x800
    + Flip(Bit(v1, 128)) * 0x400 + Flip(Bit(v2, 128)) * 0x200 + res % 512
  }

  lemma FieldsOf(h1: bool, h2: bool, s1: bool, s2: bool, low: int)
    requires 0 <= low < 512
    ensures var i := Flip(h1) * 0x1000 + Flip(h2) * 0x800 + Flip(s1) * 0x400 + Flip(s2) * 0x200 + low;
            && i % 512 == low
            && Bit(i, 0x200) == s2 && Bit(i, 0x400) == s1
            && Bit(i, 0x800) == h2 && Bit(i, 0x1000) == h1
  {
  }

  lemma IndexFields(v1: byte, v2: byte, res: int)
    ensures var i := Index(v1, v2, res);
            && i % 512 == res % 512
            && Bit(i, 0x200) == Bit(v2, 128) && Bit(i, 0x400) == Bit(v1, 128)
            && Bit(i, 0x800) == Bit(v2, 8) && Bit(i, 0x1000) == Bit(v1, 8)
  {
    hide Bit;
    FieldsOf(Bit(v1, 8), Bit(v2, 8), Bit(v1, 128), Bit(v2, 128), res % 512);
  }

  lemma SignBit(x: byte)
    ensures Bit(x, 128) <==> x >= 128
  {
  }

  lemma SignOfResult(res: int)
    ensures Bit(res % 512, 128) <==> res % 256 >= 128
    ensures Bit(res % 512, 256) <==> res % 512 >= 256
    ensures res % 512 % 256 == res % 256
  {
  }

  // ----- what the looked-up flags mean ------------------------------------------------------

  /** The flags of a table entry as the bits of its index. */
  lemma Add8Bits(i: nat)
    ensures var f, result := Add8Entry(i), i % 512;
            && (C in f <==> Bit(result, 256)) && (Z in f <==> result % 256 == 0) && (N in f <==> Bit(result, 128))
            && (V in f <==> Bit(i, 0x400) == Bit(i, 0x200) && Bit(result, 128) != Bit(i, 0x400))
            && (S in f <==> (N in f) != (V in f)) && (H in f <==> HalfCarryEntry(i, result))
            && T !in f && I !in f
  {
    hide Bit, HalfCarryEntry;
  }

  lemma Sub8Bits(i: nat)
    ensures var f, result := Sub8Entry(i), i % 512;
            && (C in f <==> Bit(result, 256)) && (Z in f <==> result % 256 == 0) && (N in f <==> Bit(result, 128))
            && (V in f <==> Bit(result, 128) == Bit(i, 0x200) && Bit(i, 0x400) != Bit(i, 0x200))
            && (S in f <==> (N in f) != (V in f)) && (H in f <==> HalfCarryEntry(i, result))
            && T !in f && I !in f
  {
    hide Bit, HalfCarryEntry;
  }

  /** An addition overflows when two operands of one sign give a result of the other. */
  lemma SignedSum(a: byte, b: byte, carry: int)
    requires 0 <= carry <= 1
    ensures var sum, signed := a + b + carry, Signed(a) + Signed(b) + carry;
            var overflow := (a >= 128) == (b >= 128) && (sum % 256 >= 128) != (a >= 128);
            && (sum % 512 >= 256 <==> sum > 255)
            && (overflow <==> !(-128 <= signed <= 127))
            && (signed < 0 <==> (sum % 256 >= 128) != overflow)
  {
  }

  lemma SignedDifference(a: byte, b: byte, carry: int)
    requires 0 <= carry <= 1
    ensures var diff, signed := a - b - carry, Signed(a) - Signed(b) - carry;
            var overflow := (diff % 256 >= 128) == (b >= 128) && (a >= 128) != (b >= 128);
            && (diff % 512 >= 256 <==> diff < 0)
            && (overflow <==> !(-128 <= signed <= 127))
            && (signed < 0 <==> (diff % 256 >= 128) != overflow)
  {
  }

  /** Every flag of an 8-bit addition with carry is what the sum says it is. */
  lemma AddFlags(a: byte, b: byte, carry: int)
    requires 0 <= carry <= 1
    ensures var f, sum, signed := Add8Entry(Index(a, b, a + b + carry)), a + b + carry, Signed(a) + Signed(b) + carry;
            && (C in f <==> sum > 255)
            && (Z in f <==> sum % 256 == 0)
            && (N in f <==> sum % 256 >= 128)
            && (V in f <==> !(-128 <= signed <= 127))
            && (S in f <==> signed < 0)
            && (H in f <==> a % 16 + b % 16 + carry > 15)
            && T !in f && I !in f
  {
    hide Bit, Index, Add8Entry, Signed;
    var res := a + b + carry;
    IndexFields(a, b, res);
    Add8Bits(Index(a, b, res));
    SignBit(a);
    SignBit(b);
    SignOfResult(res);
    SignedSum(a, b, carry);
    HalfCarry(a, b, carry);
  }

  lemma HalfCarry(a: byte, b: byte, carry: int)
    requires 0 <= carry <= 1
    ensures var res := a + b + carry;
            (Bit(a, 8) && Bit(b, 8)) || (!Bit(res % 512, 8) && (Bit(a, 8) || Bit(b, 8)))
            <==> a % 16 + b % 16 + carry > 15
  {
    hide Bit;
    NibbleBit(a);
    NibbleBit(b);
    NibbleBit((a + b + carry) % 512);
    LowNibble(a + b + carry, a / 16 + b / 16, a % 16 + b % 16 + carry);
    NibbleCarry(a % 16, b % 16, carry);
  }

  lemma NibbleCarry(a: int, b: int, carry: int)
    requires 0 <= a < 16 && 0 <= b < 16 && 0 <= carry <= 1
    ensures (a >= 8 && b >= 8) || (!((a + b + carry) % 16 >= 8) && (a >= 8 || b >= 8)) <==> a + b + carry > 15
  {
  }

  /** The low nibble of a result comes from the low nibbles of the operands. */
  lemma LowNibble(res: int, k: int, low: int)
    requires res == 16 * k + low
    ensures res % 512 % 16 == low % 16 && res % 16 == low % 16
  {
    assert res % 16 == low % 16;
    assert res % 512 == 16 * (k - 32 * (res / 512)) + low;
  }

  lemma NibbleBit(x: int)
    ensures Bit(x, 8) <==> x % 16 >= 8
  {
  }

  /** Every flag of an 8-bit subtraction with borrow but the half carry. */
  lemma SubFlags(a: byte, b: byte, carry: int)
    requires 0 <= carry <= 1
    ensures var f, diff, signed := Sub8Entry(Index(a, b, a - b - carry)), a - b - carry, Signed(a) - Signed(b) - carry;
            && (C in f <==> diff < 0)
            && (Z in f <==> diff % 256 == 0)
            && (N in f <==> diff % 256 >= 128)
            && (V in f <==> !(-128 <= signed <= 127))
            && (S in f <==> signed < 0)
            && T !in f && I !in f
  {
    hide Bit, Index, Sub8Entry, Signed;
    var res := a - b - carry;
    IndexFields(a, b, res);
    Sub8Bits(Index(a, b, res));
    SignBit(a);
    SignBit(b);
    SignOfResult(res);
    SignedDifference(a, b, carry);
  }

  /**
    The subtraction table takes its half carry from the addition formula. It is the borrow out of
    the low nibble if and only if bit 3 of the subtrahend is set exactly when bit 3 is borrowed from;
    seen from the result, if bit 3 of the result equals bit 3 of the minuend.
   */
  lemma SubHalfCarry(a: byte, b: byte, carry: int)
    requires 0 <= carry <= 1
    ensures var f := Sub8Entry(Index(a, b, a - b - carry));
            && ((H in f <==> a % 16 < b % 16 + carry) <==> (b % 16 >= 8 <==> a % 8 < b % 8 + carry))
            && ((H in f <==> a % 16 < b % 16 + carry) <==> (Bit(a - b - carry, 8) <==> Bit(a, 8)))
  {
    hide Bit, Index, Sub8Entry, HalfCarryEntry;
    var res := a - b - carry;
    Sub8Bits(Index(a, b, res));
    IndexFields(a, b, res);
    SubFormula(a, b, carry);
    NibbleBit(a);
    NibbleBit(res);
    SubLowNibble(a, b, carry);
    NibbleBorrow(a % 16, b % 16, carry);
    OctetOfNibble(a);
    OctetOfNibble(b);
  }

  /** The looked-up half carry of a subtraction in terms of the low nibbles. */
  lemma SubFormula(a: byte, b: byte, carry: int)
    requires 0 <= carry <= 1
    ensures var low, i := (a % 16 - b % 16 - carry) % 16, Index(a, b, a - b - carry);
            HalfCarryEntry(i, i % 512)
            <==> (a % 16 >= 8 && b % 16 >= 8) || (!(low >= 8) && (a % 16 >= 8 || b % 16 >= 8))
  {
    hide Bit, Index;
    var res := a - b - carry;
    IndexFields(a, b, res);
    NibbleBit(a);
    NibbleBit(b);
    NibbleBit(res % 512);
    SubLowNibble(a, b, carry);
  }

  lemma SubLowNibble(a: byte, b: byte, carry: int)
    ensures var res, low := a - b - carry, (a % 16 - b % 16 - carry) % 16;
            res % 512 % 16 == low && res % 16 == low
  {
    LowNibble(a - b - carry, a / 16 - b / 16, a % 16 - b % 16 - carry);
  }

  lemma OctetOfNibble(x: int)
    ensures x % 16 % 8 == x % 8
  {
    assert x == 8 * (2 * (x / 16)) + x % 16;
  }

  lemma NibbleBorrow(a: int, b: int, carry: int)
    requires 0 <= a < 16 && 0 <= b < 16 && 0 <= carry <= 1
    ensures var low := (a - b - carry) % 16;
            var formula := (a >= 8 && b >= 8) || (!(low >= 8) && (a >= 8 || b >= 8));
            && ((formula <==> a < b + carry) <==> (low >= 8 <==> a >= 8))
            && ((low >= 8 <==> a >= 8) <==> (b >= 8 <==> a % 8 < b % 8 + carry))
  {
    var low := a - b - carry;
    assert low % 16 == if low < 0 then low + 16 else low;
    assert a % 8 == if a >= 8 then a - 8 else a;
    assert b % 8 == if b >= 8 then b - 8 else b;
  }

  /** For instance `8 - 1` does not borrow from the high nibble, yet sets the half carry. */
  lemma SubHalfCarryFails()
    ensures H in Sub8Entry(Index(8, 1, 8 - 1)) && !(8 % 16 - 1 % 16 < 0)
  {
    IndexFields(8, 1, 7);
  }

  /** A rotation shifts its ninth bit in at the top and its lowest bit into the carry. */
  lemma RorFlags(value: int)
    requires 0 <= value < 512
    ensures var f, result := Ror8Entry(value), value / 2;
            && (C in f <==> value % 2 == 1)
            && (Z in f <==> result == 0)
            && (N in f <==> result >= 128)
            && (V in f <==> (N in f) != (C in f))
            && (S in f <==> (N in f) != (V in f))
            && T !in f && I !in f && H !in f
  {
  }
}
