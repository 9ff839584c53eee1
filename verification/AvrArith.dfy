/**
  The arithmetic instructions of `avrtest.c` as steps on bytes and flags, and what chains of them
  compute on numbers of any length.
 */
module AvrArith {
  import opened AvrFlags

  const ARITHMETIC: Sreg := {H, S, V, N, Z, C}
  const SHIFTS: Sreg := {S, V, N, Z, C}

  /** `update_flags`. */
  function UpdateFlags(sreg: Sreg, flags: Sreg, values: Sreg): Sreg {
    (sreg - flags) + values
  }

  /** `get_carry`. */
  function Carry(sreg: Sreg): (c: int)
    ensures 0 <= c <= 1
  {
    Flip(C in sreg)
  }

  /** `do_addition_8` on the operand bytes. */
  function AddStep(sreg: Sreg, a: byte, b: byte, carry: int): (byte, Sreg)
    requires 0 <= carry <= 1
  {
    var result := a + b + carry;
    (result % 256, UpdateFlags(sreg, ARITHMETIC, Add8Entry(Index(a, b, result))))
  }

  /** `do_subtraction_8`: with `use_carry`, Z is only kept, never set. */
  function SubStep(sreg: Sreg, a: byte, b: byte, carry: int, use_carry: bool): (byte, Sreg)
    requires 0 <= carry <= 1
  {
    var result := a - b - carry;
    var looked_up := Sub8Entry(Index(a, b, result));
    var kept := if use_carry && Z !in sreg then looked_up - {Z} else looked_up;
    (result % 256, UpdateFlags(sreg, ARITHMETIC, kept))
  }

  /** `rotate_right`. */
  function RotateStep(sreg: Sreg, value: byte, top_bit: bool): (byte, Sreg) {
    var v := value + 256 * Flip(top_bit);
    (v / 2, UpdateFlags(sreg, SHIFTS, Ror8Entry(v)))
  }

  // ----- numbers of several bytes -----------------------------------------------------------

  /** The unsigned number in a sequence of bytes, the lowest first. */
  function Number(a: seq<byte>): (n: nat) {
    if a == [] then 0 else a[0] + 256 * Number(a[1..])
  }

  /** The two's-complement number in a sequence of bytes. */
  function SignedNumber(a: seq<byte>): int
    requires a != []
  {
    if |a| == 1 then Signed(a[0]) else a[0] + 256 * SignedNumber(a[1..])
  }

  /** 256^n, and half of it. */
  function Modulus(n: nat): (m: int)
    ensures m >= 1
  {
    if n == 0 then 1 else 256 * Modulus(n - 1)
  }

  function Half(n: nat): (h: int)
    requires n >= 1
    ensures h >= 1
  {
    if n == 1 then 128 else 256 * Half(n - 1)
  }

  predicate InRange(x: int, n: nat)
    requires n >= 1
  {
    -Half(n) <= x < Half(n)
  }

  lemma {:induction false} NumberBound(a: seq<byte>)
    ensures Number(a) < Modulus(|a|)
  {
    if a != [] {
      NumberBound(a[1..]);
    }
  }

  /** Different byte sequences of one length are different numbers. */
  lemma {:induction false} NumberIsInjective(a: seq<byte>, b: seq<byte>)
    requires |a| == |b| && Number(a) == Number(b)
    ensures a == b
  {
    if a != [] {
      NumberIsInjective(a[1..], b[1..]);
      assert a == [a[0]] + a[1..] && b == [b[0]] + b[1..];
    }
  }

  // ----- subtraction and comparison chains --------------------------------------------------

  /** `SBC` (or `CPC`, which drops the bytes) on the bytes in turn, the lowest first. */
  function SbcChain(sreg: Sreg, a: seq<byte>, b: seq<byte>): (seq<byte>, Sreg)
    requires |a| == |b|
    decreases a
  {
    if a == [] then ([], sreg)
    else
      var (r0, next) := SubStep(sreg, a[0], b[0], Carry(sreg), true);
      var (rest, last) := SbcChain(next, a[1..], b[1..]);
      ([r0] + rest, last)
  }

  /** `SUB` (or `CP`) on the lowest bytes followed by `SBC` (or `CPC`) on the higher ones. */
  function SubChain(sreg: Sreg, a: seq<byte>, b: seq<byte>): (seq<byte>, Sreg)
    requires |a| == |b| > 0
  {
    var (r0, next) := SubStep(sreg, a[0], b[0], 0, false);
    var (rest, last) := SbcChain(next, a[1..], b[1..]);
    ([r0] + rest, last)
  }

  /** One step in terms of the numbers. */
  lemma SubStepMeaning(sreg: Sreg, a: byte, b: byte, carry: int, use_carry: bool)
    requires 0 <= carry <= 1
    ensures var (r, f) := SubStep(sreg, a, b, carry, use_carry);
            && r == a - b - carry + 256 * Flip(C in f)
            && (Z in f <==> (use_carry ==> Z in sreg) && r == 0)
            && (N in f <==> r >= 128)
            && (V in f <==> !InRange(Signed(a) - Signed(b) - carry, 1))
            && (S in f <==> Signed(a) - Signed(b) - carry < 0)
            && ((H in f <==> a % 16 < b % 16 + carry) <==> (b % 16 >= 8 <==> a % 8 < b % 8 + carry))
            && (T in f <==> T in sreg) && (I in f <==> I in sreg)
  {
    hide Sub8Entry, Index, Bit;
    SubFlags(a, b, carry);
    SubHalfCarry(a, b, carry);
    ByteOf(a - b - carry);
  }

  lemma ByteOf(x: int)
    requires -256 <= x < 256
    ensures x % 256 == x + 256 * Flip(x < 0)
  {
  }

  /** What the flags and the bytes of a chain say about the whole numbers. */
  predicate SubMeaning(a: seq<byte>, b: seq<byte>, carry: int, zero: bool, r: seq<byte>, f: Sreg)
    requires |a| == |b| > 0
  {
    && |r| == |a|
    && Number(r) == Number(a) - Number(b) - carry + Modulus(|a|) * Flip(C in f)
    && (C in f <==> Number(a) - Number(b) - carry < 0)
    && (Z in f <==> zero && Number(r) == 0)
    && (N in f <==> SignedNumber(r) < 0)
    && (V in f <==> !InRange(SignedNumber(a) - SignedNumber(b) - carry, |a|))
    && (S in f <==> SignedNumber(a) - SignedNumber(b) - carry < 0)
  }

  lemma SubMeaningOfOne(a: seq<byte>, b: seq<byte>, carry: int, zero: bool, r: byte, f: Sreg)
    requires |a| == |b| == 1 && 0 <= carry <= 1
    requires r == a[0] - b[0] - carry + 256 * Flip(C in f)
    requires Z in f <==> zero && r == 0
    requires N in f <==> r >= 128
    requires V in f <==> !InRange(Signed(a[0]) - Signed(b[0]) - carry, 1)
    requires S in f <==> Signed(a[0]) - Signed(b[0]) - carry < 0
    ensures SubMeaning(a, b, carry, zero, [r], f)
  {
    assert Number(a[1..]) == 0 && Number(b[1..]) == 0;
    assert Number([r]) == r;
    assert Modulus(1) == 256;
  }

  /** A low byte in front of a chain. */
  lemma SubMeaningOfMore(a: seq<byte>, b: seq<byte>, carry: int, zero: bool, r0: byte, c: int, z: bool, rest: seq<byte>, f: Sreg)
    requires |a| == |b| > 1 && 0 <= carry <= 1 && 0 <= c <= 1
    requires r0 == a[0] - b[0] - carry + 256 * c
    requires z <==> zero && r0 == 0
    requires SubMeaning(a[1..], b[1..], c, z, rest, f)
    ensures SubMeaning(a, b, carry, zero, [r0] + rest, f)
  {
    var r := [r0] + rest;
    assert r[1..] == rest;
    assert Number(r) == r0 + 256 * Number(rest);
    assert SignedNumber(r) == r0 + 256 * SignedNumber(rest);
    assert Modulus(|a|) == 256 * Modulus(|a| - 1);
    assert Half(|a|) == 256 * Half(|a| - 1);
    var d := SignedNumber(a[1..]) - SignedNumber(b[1..]) - c;
    assert SignedNumber(a) - SignedNumber(b) - carry == r0 + 256 * d;
    assert InRange(r0 + 256 * d, |a|) <==> InRange(d, |a| - 1);
    assert Number(a) - Number(b) - carry == r0 + 256 * (Number(a[1..]) - Number(b[1..]) - c);
    assert Modulus(|a|) * Flip(C in f) == 256 * (Modulus(|a| - 1) * Flip(C in f));
  }

  lemma {:induction false} SbcChainMeaning(sreg: Sreg, a: seq<byte>, b: seq<byte>)
    requires |a| == |b| > 0
    ensures var (r, f) := SbcChain(sreg, a, b);
            SubMeaning(a, b, Carry(sreg), Z in sreg, r, f)
    decreases a
  {
    hide SubStep, SubMeaning;
    var (r0, next) := SubStep(sreg, a[0], b[0], Carry(sreg), true);
    SubStepMeaning(sreg, a[0], b[0], Carry(sreg), true);
    if |a| == 1 {
      assert a[1..] == [] && b[1..] == [];
      assert [r0] + [] == [r0];
      SubMeaningOfOne(a, b, Carry(sreg), Z in sreg, r0, next);
    } else {
      SbcChainMeaning(next, a[1..], b[1..]);
      var (rest, last) := SbcChain(next, a[1..], b[1..]);
      SubMeaningOfMore(a, b, Carry(sreg), Z in sreg, r0, Carry(next), Z in next, rest, last);
    }
  }

  /**
    A chain of `SUB` and `SBC` computes the difference modulo 256^n, and its flags are those of the
    whole numbers, whatever the flags were before.
   */
  lemma SubChainMeaning(sreg: Sreg, a: seq<byte>, b: seq<byte>)
    requires |a| == |b| > 0
    ensures var (r, f) := SubChain(sreg, a, b);
            SubMeaning(a, b, 0, true, r, f)
  {
    hide SubStep, SubMeaning;
    var (r0, next) := SubStep(sreg, a[0], b[0], 0, false);
    SubStepMeaning(sreg, a[0], b[0], 0, false);
    if |a| == 1 {
      assert a[1..] == [] && b[1..] == [];
      assert [r0] + [] == [r0];
      SubMeaningOfOne(a, b, 0, true, r0, next);
    } else {
      SbcChainMeaning(next, a[1..], b[1..]);
      var (rest, last) := SbcChain(next, a[1..], b[1..]);
      SubMeaningOfMore(a, b, 0, true, r0, Carry(next), Z in next, rest, last);
    }
  }

  /** `CP` then `CPC`: C is unsigned less, Z is equal, S is signed less, for n-byte numbers. */
  lemma CompareChain(sreg: Sreg, a: seq<byte>, b: seq<byte>)
    requires |a| == |b| > 0
    ensures var f := SubChain(sreg, a, b).1;
            && (C in f <==> Number(a) < Number(b))
            && (Z in f <==> a == b)
            && (S in f <==> SignedNumber(a) < SignedNumber(b))
  {
    hide SubChain;
    SubChainMeaning(sreg, a, b);
    var (r, f) := SubChain(sreg, a, b);
    NumberBound(r);
    NumberBound(a);
    NumberBound(b);
    if Number(a) == Number(b) {
      NumberIsInjective(a, b);
    }
  }

  // ----- addition chains --------------------------------------------------------------------

  /** `ADC` on the bytes in turn, the lowest first. */
  function AdcChain(sreg: Sreg, a: seq<byte>, b: seq<byte>): (seq<byte>, Sreg)
    requires |a| == |b|
    decreases a
  {
    if a == [] then ([], sreg)
    else
      var (r0, next) := AddStep(sreg, a[0], b[0], Carry(sreg));
      var (rest, last) := AdcChain(next, a[1..], b[1..]);
      ([r0] + rest, last)
  }

  /** `ADD` on the lowest bytes followed by `ADC` on the higher ones. */
  function AddChain(sreg: Sreg, a: seq<byte>, b: seq<byte>): (seq<byte>, Sreg)
    requires |a| == |b| > 0
  {
    var (r0, next) := AddStep(sreg, a[0], b[0], 0);
    var (rest, last) := AdcChain(next, a[1..], b[1..]);
    ([r0] + rest, last)
  }

  lemma AddStepMeaning(sreg: Sreg, a: byte, b: byte, carry: int)
    requires 0 <= carry <= 1
    ensures var (r, f) := AddStep(sreg, a, b, carry);
            && r == a + b + carry - 256 * Flip(C in f)
            && (Z in f <==> r == 0)
            && (N in f <==> r >= 128)
            && (V in f <==> !InRange(Signed(a) + Signed(b) + carry, 1))
            && (S in f <==> Signed(a) + Signed(b) + carry < 0)
            && (H in f <==> a % 16 + b % 16 + carry > 15)
            && (T in f <==> T in sreg) && (I in f <==> I in sreg)
  {
    hide Add8Entry, Index;
    AddFlags(a, b, carry);
  }

  /** Z speaks of the last byte only: unlike `SBC`, `ADC` does not keep it. */
  predicate AddMeaning(a: seq<byte>, b: seq<byte>, carry: int, r: seq<byte>, f: Sreg)
    requires |a| == |b| > 0
  {
    && |r| == |a|
    && Number(r) == Number(a) + Number(b) + carry - Modulus(|a|) * Flip(C in f)
    && (Z in f <==> r[|r| - 1] == 0)
    && (N in f <==> SignedNumber(r) < 0)
    && (V in f <==> !InRange(SignedNumber(a) + SignedNumber(b) + carry, |a|))
    && (S in f <==> SignedNumber(a) + SignedNumber(b) + carry < 0)
  }

  lemma AddMeaningOfOne(a: seq<byte>, b: seq<byte>, carry: int, r: byte, f: Sreg)
    requires |a| == |b| == 1 && 0 <= carry <= 1
    requires r == a[0] + b[0] + carry - 256 * Flip(C in f)
    requires Z in f <==> r == 0
    requires N in f <==> r >= 128
    requires V in f <==> !InRange(Signed(a[0]) + Signed(b[0]) + carry, 1)
    requires S in f <==> Signed(a[0]) + Signed(b[0]) + carry < 0
    ensures AddMeaning(a, b, carry, [r], f)
  {
    assert Number(a[1..]) == 0 && Number(b[1..]) == 0;
    assert Number([r]) == r;
    assert Modulus(1) == 256;
  }

  lemma AddMeaningOfMore(a: seq<byte>, b: seq<byte>, carry: int, r0: byte, c: int, rest: seq<byte>, f: Sreg)
    requires |a| == |b| > 1 && 0 <= carry <= 1 && 0 <= c <= 1
    requires r0 == a[0] + b[0] + carry - 256 * c
    requires AddMeaning(a[1..], b[1..], c, rest, f)
    ensures AddMeaning(a, b, carry, [r0] + rest, f)
  {
    var r := [r0] + rest;
    assert r[1..] == rest;
    assert Number(r) == r0 + 256 * Number(rest);
    assert SignedNumber(r) == r0 + 256 * SignedNumber(rest);
    assert Modulus(|a|) == 256 * Modulus(|a| - 1);
    assert Half(|a|) == 256 * Half(|a| - 1);
    var d := SignedNumber(a[1..]) + SignedNumber(b[1..]) + c;
    assert SignedNumber(a) + SignedNumber(b) + carry == r0 + 256 * d;
    assert InRange(r0 + 256 * d, |a|) <==> InRange(d, |a| - 1);
    assert Number(a) + Number(b) + carry == r0 + 256 * (Number(a[1..]) + Number(b[1..]) + c);
    assert Modulus(|a|) * Flip(C in f) == 256 * (Modulus(|a| - 1) * Flip(C in f));
  }

  lemma {:induction false} AdcChainMeaning(sreg: Sreg, a: seq<byte>, b: seq<byte>)
    requires |a| == |b| > 0
    ensures var (r, f) := AdcChain(sreg, a, b);
            AddMeaning(a, b, Carry(sreg), r, f)
    decreases a
  {
    hide AddStep, AddMeaning;
    var (r0, next) := AddStep(sreg, a[0], b[0], Carry(sreg));
    AddStepMeaning(sreg, a[0], b[0], Carry(sreg));
    if |a| == 1 {
      assert a[1..] == [] && b[1..] == [];
      assert [r0] + [] == [r0];
      AddMeaningOfOne(a, b, Carry(sreg), r0, next);
    } else {
      AdcChainMeaning(next, a[1..], b[1..]);
      var (rest, last) := AdcChain(next, a[1..], b[1..]);
      AddMeaningOfMore(a, b, Carry(sreg), r0, Carry(next), rest, last);
    }
  }

  /**
    A chain of `ADD` and `ADC` computes the n-byte sum; at the end C is its carry, V its signed
    overflow, N the sign of the bytes and S the sign of the true sum.
   */
  lemma AddChainMeaning(sreg: Sreg, a: seq<byte>, b: seq<byte>)
    requires |a| == |b| > 0
    ensures var (r, f) := AddChain(sreg, a, b);
            AddMeaning(a, b, 0, r, f)
            && (C in f <==> Number(a) + Number(b) >= Modulus(|a|))
  {
    hide AddStep;
    var (r0, next) := AddStep(sreg, a[0], b[0], 0);
    AddStepMeaning(sreg, a[0], b[0], 0);
    if |a| == 1 {
      assert a[1..] == [] && b[1..] == [];
      assert [r0] + [] == [r0];
      AddMeaningOfOne(a, b, 0, r0, next);
    } else {
      AdcChainMeaning(next, a[1..], b[1..]);
      var (rest, last) := AdcChain(next, a[1..], b[1..]);
      AddMeaningOfMore(a, b, 0, r0, Carry(next), rest, last);
    }
    NumberBound(AddChain(sreg, a, b).0);
  }

  // ----- word instructions ------------------------------------------------------------------

  /** `FUT_ADDSUB16_INDEX`: the high bytes, with nothing for the small operand. */
  function WordIndex(v1: int, res: int): (i: nat)
    ensures i < 8192
  {
    Flip(Bit(v1 / 256, 128)) * 0x400 + res / 256 % 512
  }

  /** The flags `ADIW` and `SBIW` take from the 8-bit tables. */
  function WordFlags(looked_up: Sreg, evalue: int): Sreg {
    if evalue % 65536 != 0 then looked_up - {H} - {Z} else looked_up - {H}
  }

  function SignedWord(w: int): int {
    if w < 32768 then w else w - 65536
  }

  lemma WordIndexFields(w: int, res: int)
    requires 0 <= w < 65536 && -64 < res < 65536 + 64
    ensures var i := WordIndex(w, res);
            && i % 512 == res / 256 % 512
            && !Bit(i, 0x200) && Bit(i, 0x400) == (w >= 32768)
            && (Bit(i % 512, 128) <==> res % 65536 >= 32768)
            && (Bit(i % 512, 256) <==> res < 0 || res > 65535)
            && (res % 65536 == 0 ==> i % 512 % 256 == 0)
  {
    FieldsOf(false, false, w >= 32768, false, res / 256 % 512);
    assert Bit(w / 256, 128) <==> w >= 32768;
    assert res < 0 ==> res / 256 == -1;
  }

  /** Every flag of `ADIW`, computed by the table of 8-bit addition, is that of the 16-bit sum. */
  lemma AdiwFlags(sreg: Sreg, w: int, k: int)
    requires 0 <= w < 65536 && 0 <= k < 64
    ensures var f := UpdateFlags(sreg, SHIFTS, WordFlags(Add8Entry(WordIndex(w, w + k)), w + k));
            var signed := SignedWord(w) + k;
            && (C in f <==> w + k > 65535)
            && (Z in f <==> (w + k) % 65536 == 0)
            && (N in f <==> (w + k) % 65536 >= 32768)
            && (V in f <==> signed > 32767)
            && (S in f <==> signed < 0)
            && (H in f <==> H in sreg) && (T in f <==> T in sreg) && (I in f <==> I in sreg)
  {
    hide Bit, WordIndex, Add8Entry;
    WordIndexFields(w, w + k);
    Add8Bits(WordIndex(w, w + k));
  }

  /** The same for `SBIW` and the table of 8-bit subtraction. */
  lemma SbiwFlags(sreg: Sreg, w: int, k: int)
    requires 0 <= w < 65536 && 0 <= k < 64
    ensures var f := UpdateFlags(sreg, SHIFTS, WordFlags(Sub8Entry(WordIndex(w, w - k)), w - k));
            var signed := SignedWord(w) - k;
            && (C in f <==> w < k)
            && (Z in f <==> w == k)
            && (N in f <==> (w - k) % 65536 >= 32768)
            && (V in f <==> signed < -32768)
            && (S in f <==> signed < 0)
            && (H in f <==> H in sreg) && (T in f <==> T in sreg) && (I in f <==> I in sreg)
  {
    hide Bit, WordIndex, Sub8Entry;
    WordIndexFields(w, w - k);
    Sub8Bits(WordIndex(w, w - k));
  }

  // ----- shift chains -----------------------------------------------------------------------

  /**
    `LSR` or `ASR` on the highest byte followed by `ROR` on the lower ones; `top_bit` is what enters
    at the top, clear for `LSR` and the sign bit for `ASR`.
   */
  function ShiftChain(sreg: Sreg, a: seq<byte>, top_bit: bool): (seq<byte>, Sreg)
    requires a != []
    decreases a
  {
    if |a| == 1 then
      var (r, f) := RotateStep(sreg, a[0], top_bit);
      ([r], f)
    else
      var (rest, f) := ShiftChain(sreg, a[1..], top_bit);
      var (r0, last) := RotateStep(f, a[0], C in f);
      ([r0] + rest, last)
  }

  lemma RotateStepMeaning(sreg: Sreg, value: byte, top_bit: bool)
    ensures var (r, f) := RotateStep(sreg, value, top_bit);
            && value + 256 * Flip(top_bit) == 2 * r + Flip(C in f)
            && (N in f <==> top_bit) && (Z in f <==> r == 0)
            && (V in f <==> (N in f) != (C in f)) && (S in f <==> (N in f) != (V in f))
            && (T in f <==> T in sreg) && (I in f <==> I in sreg) && (H in f <==> H in sreg)
  {
    hide Ror8Entry;
    RorFlags(value + 256 * Flip(top_bit));
  }

  lemma {:induction false} ShiftChainHalves(sreg: Sreg, a: seq<byte>, top_bit: bool)
    requires a != []
    ensures var (r, f) := ShiftChain(sreg, a, top_bit);
            && |r| == |a|
            && Number(a) + Modulus(|a|) * Flip(top_bit) == 2 * Number(r) + Flip(C in f)
            && (top_bit == (a[|a| - 1] >= 128) ==> SignedNumber(a) == 2 * SignedNumber(r) + Flip(C in f))
    decreases a
  {
    hide RotateStep;
    if |a| == 1 {
      RotateStepMeaning(sreg, a[0], top_bit);
      var (r, f) := RotateStep(sreg, a[0], top_bit);
      assert Number(a[1..]) == 0 && Number([r]) == r && Modulus(1) == 256;
    } else {
      ShiftChainHalves(sreg, a[1..], top_bit);
      var (rest, f) := ShiftChain(sreg, a[1..], top_bit);
      RotateStepMeaning(f, a[0], C in f);
      var (r0, last) := RotateStep(f, a[0], C in f);
      var r := [r0] + rest;
      assert r[1..] == rest;
      assert Number(r) == r0 + 256 * Number(rest);
      assert SignedNumber(r) == r0 + 256 * SignedNumber(rest);
      assert Modulus(|a|) * Flip(top_bit) == 256 * (Modulus(|a| - 1) * Flip(top_bit));
    }
  }

  /** From the top byte down: unsigned or signed floor division by two, with C the remainder. */
  lemma ShiftChainMeaning(sreg: Sreg, a: seq<byte>)
    requires a != []
    ensures var (r, f) := ShiftChain(sreg, a, false);
            Number(r) == Number(a) / 2 && (C in f <==> Number(a) % 2 == 1)
    ensures var (r, f) := ShiftChain(sreg, a, a[|a| - 1] >= 128);
            |r| == |a| && SignedNumber(r) == SignedNumber(a) / 2 && (C in f <==> SignedNumber(a) % 2 == 1)
  {
    hide ShiftChain;
    ShiftChainHalves(sreg, a, false);
    ShiftChainHalves(sreg, a, a[|a| - 1] >= 128);
  }
}
