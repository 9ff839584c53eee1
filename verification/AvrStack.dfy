/** The memory stack of `avrtest.c`, its pointer and the status register in data memory. */
module AvrStack {
  import opened XiErr
  import opened AvrFlags

  const MAX_RAM_SIZE := 65536
  const MAX_FLASH_SIZE := 262144
  const SREG := 0x3F + IOBASE
  const SPH := 0x3E + IOBASE
  const SPL := 0x3D + IOBASE
  const STDIN_PORT := 0x32 + IOBASE
  const RESERVED := 0x40 + IOBASE

  type Ram = d: seq<byte> | |d| == MAX_RAM_SIZE witness seq(MAX_RAM_SIZE, _ => 0)

  // ----- the four operations on memory ------------------------------------------------------

  /** `data_read_word (SPL)`. */
  function Sp(d: Ram): (sp: int)
    ensures 0 <= sp < 65536
  {
    var low: int, high: int := d[SPL], d[SPH];
    low + 256 * high
  }

  /** `data_write_word (SPL, sp)`. */
  function WithSp(d: Ram, sp: int): (r: Ram)
    ensures 0 <= sp < 65536 ==> Sp(r) == sp
    ensures forall i :: 0 <= i < MAX_RAM_SIZE && i != SPL && i != SPH ==> r[i] == d[i]
  {
    d[SPL := sp % 256][SPH := sp / 256 % 256]
  }

  /** `push_byte`; nothing when the simulator gives up because the stack is full. */
  function PushedByte(d: Ram, value: int): Option<Ram> {
    var sp := Sp(d);
    if sp < RESERVED then None else Some(WithSp(d[sp := value % 256], sp - 1))
  }

  /** `pop_byte`; nothing beyond the end of memory, and nothing where it would read standard input. */
  function PoppedByte(d: Ram): Option<(nat, Ram)> {
    var sp := Sp(d) + 1;
    if sp >= MAX_RAM_SIZE || sp == STDIN_PORT then None
    else
      var r := WithSp(d, sp);
      Some((r[sp], r))
  }

  function PcSize(pc_3bytes: bool): int {
    if pc_3bytes then 3 else 2
  }

  /** `push_PC`. */
  function PushedPc(d: Ram, pc: nat, pc_3bytes: bool): Option<Ram> {
    var sp := Sp(d);
    if sp < RESERVED then None
    else
      var d2 := d[sp := pc % 256][sp - 1 := pc / 256 % 256];
      var d3: Ram := if pc_3bytes then d2[sp - 2 := pc / 65536 % 256] else d2;
      Some(WithSp(d3, sp - PcSize(pc_3bytes)))
  }

  /** `pop_PC`; nothing when the counter read is out of bounds. */
  function PoppedPc(d: Ram, pc_3bytes: bool): Option<(nat, Ram)> {
    var sp := Sp(d);
    var k := PcSize(pc_3bytes);
    if sp + k >= MAX_RAM_SIZE || (sp < STDIN_PORT <= sp + k) then None
    else
      var top: int, mid: int, low: int := d[sp + 1], d[sp + k - 1], d[sp + k];
      var high := if pc_3bytes then top * 65536 else 0;
      if high >= MAX_FLASH_SIZE / 2 then None
      else Some((high + mid * 256 + low, WithSp(d, sp + k)))
  }

  // ----- the abstract stack -----------------------------------------------------------------

  datatype Frame = ByteFrame(value: byte) | PcFrame(pc: nat)

  datatype Op = PushByteOp(value: byte) | PopByteOp | PushPcOp(pc: nat) | PopPcOp

  /** A program counter that fits the width it is pushed with. */
  predicate PcFits(pc: nat, pc_3bytes: bool) {
    pc < if pc_3bytes then 131072 else 65536
  }

  /** The bytes of a frame, upwards from the top of the stack. */
  function Bytes(f: Frame, pc_3bytes: bool): seq<byte> {
    match f
    case ByteFrame(v) => [v]
    case PcFrame(pc) =>
      (if pc_3bytes then [pc / 65536 % 256] else []) + [pc / 256 % 256, pc % 256]
  }

  /** The bytes of a stack, upwards from its top; the last frame is the top one. */
  function Layout(frames: seq<Frame>, pc_3bytes: bool): seq<byte> {
    if frames == [] then []
    else Bytes(frames[|frames| - 1], pc_3bytes) + Layout(frames[..|frames| - 1], pc_3bytes)
  }

  /** One operation on the abstract stack; a pop must find a frame of its own kind. */
  function AbstractStep(frames: seq<Frame>, op: Op, pc_3bytes: bool): Option<(seq<Frame>, seq<nat>)> {
    match op
    case PushByteOp(v) => Some((frames + [ByteFrame(v)], []))
    case PushPcOp(pc) => if PcFits(pc, pc_3bytes) then Some((frames + [PcFrame(pc)], [])) else None
    case PopByteOp =>
      if frames != [] && frames[|frames| - 1].ByteFrame?
      then Some((frames[..|frames| - 1], [frames[|frames| - 1].value])) else None
    case PopPcOp =>
      if frames != [] && frames[|frames| - 1].PcFrame?
      then Some((frames[..|frames| - 1], [frames[|frames| - 1].pc])) else None
  }

  /** The same operation on memory. */
  function ConcreteStep(d: Ram, op: Op, pc_3bytes: bool): Option<(Ram, seq<nat>)> {
    match op
    case PushByteOp(v) =>
      (match PushedByte(d, v) case None => None case Some(r) => Some((r, [])))
    case PushPcOp(pc) =>
      (match PushedPc(d, pc, pc_3bytes) case None => None case Some(r) => Some((r, [])))
    case PopByteOp =>
      (match PoppedByte(d) case None => None case Some((v, r)) => Some((r, [v])))
    case PopPcOp =>
      (match PoppedPc(d, pc_3bytes) case None => None case Some((pc, r)) => Some((r, [pc])))
  }

  /** Every frame lies in memory above the reserved area. */
  predicate InMemory(base: int, frames: seq<Frame>, pc_3bytes: bool) {
    base < MAX_RAM_SIZE && RESERVED <= base + 1 - |Layout(frames, pc_3bytes)|
  }

  /** Memory holds a stack that started with its pointer at `base`. */
  predicate Represents(d: Ram, base: int, frames: seq<Frame>, pc_3bytes: bool) {
    var layout := Layout(frames, pc_3bytes);
    && InMemory(base, frames, pc_3bytes)
    && Sp(d) == base - |layout|
    && (forall i :: 0 <= i < |layout| ==> d[Sp(d) + 1 + i] == layout[i])
    && forall f :: f in frames && f.PcFrame? ==> PcFits(f.pc, pc_3bytes)
  }

  /** Apart from the stack pointer, nothing but the `n` bytes from `at` differs. */
  predicate SameBut(d: Ram, e: Ram, at: int, n: int) {
    forall i :: 0 <= i < MAX_RAM_SIZE && i != SPL && i != SPH && !(at <= i < at + n) ==> e[i] == d[i]
  }

  lemma LayoutOfPush(frames: seq<Frame>, f: Frame, pc_3bytes: bool)
    ensures Layout(frames + [f], pc_3bytes) == Bytes(f, pc_3bytes) + Layout(frames, pc_3bytes)
  {
    assert (frames + [f])[..|frames|] == frames;
  }

  /** The memory after the frame is pushed, if the simulator does not give up. */
  function Pushed(d: Ram, f: Frame, pc_3bytes: bool): Option<Ram> {
    match f
    case ByteFrame(v) => PushedByte(d, v)
    case PcFrame(pc) => PushedPc(d, pc, pc_3bytes)
  }

  function Popped(d: Ram, f: Frame, pc_3bytes: bool): Option<(nat, Ram)> {
    match f
    case ByteFrame(_) => PoppedByte(d)
    case PcFrame(_) => PoppedPc(d, pc_3bytes)
  }

  function FrameValue(f: Frame): nat {
    match f
    case ByteFrame(v) => v
    case PcFrame(pc) => pc
  }

  predicate FrameFits(f: Frame, pc_3bytes: bool) {
    f.PcFrame? ==> PcFits(f.pc, pc_3bytes)
  }

  /** A push writes the bytes of the frame below the old stack pointer, and nothing else. */
  lemma PushWrites(d: Ram, f: Frame, pc_3bytes: bool)
    requires RESERVED <= Sp(d) + 1 - |Bytes(f, pc_3bytes)|
    ensures var p, bytes := Pushed(d, f, pc_3bytes), Bytes(f, pc_3bytes);
            && p.Some? && Sp(p.value) == Sp(d) - |bytes|
            && SameBut(d, p.value, Sp(p.value) + 1, |bytes|)
            && (forall i :: 0 <= i < |bytes| ==> p.value[Sp(p.value) + 1 + i] == bytes[i])
  {
    hide Sp, WithSp;
  }

  /** A pop reads what the bytes of a frame above the stack pointer say, and writes nothing. */
  lemma PopReads(d: Ram, f: Frame, pc_3bytes: bool)
    requires RESERVED <= Sp(d) + 1 && Sp(d) + |Bytes(f, pc_3bytes)| < MAX_RAM_SIZE && FrameFits(f, pc_3bytes)
    requires forall i :: 0 <= i < |Bytes(f, pc_3bytes)| ==> d[Sp(d) + 1 + i] == Bytes(f, pc_3bytes)[i]
    ensures var p, bytes := Popped(d, f, pc_3bytes), Bytes(f, pc_3bytes);
            && p.Some? && p.value.0 == FrameValue(f) && Sp(p.value.1) == Sp(d) + |bytes|
            && SameBut(d, p.value.1, 0, 0)
  {
    hide Sp, WithSp;
    var bytes := Bytes(f, pc_3bytes);
    assert d[Sp(d) + 1] == bytes[0];
    if f.PcFrame? {
      assert d[Sp(d) + 2] == bytes[1];
      assert pc_3bytes ==> d[Sp(d) + 3] == bytes[2];
      PcBytes(f.pc);
    }
  }

  lemma PcBytes(pc: nat)
    requires pc < MAX_FLASH_SIZE / 2
    ensures pc / 65536 % 256 * 65536 + pc / 256 % 256 * 256 + pc % 256 == pc
    ensures pc < 65536 ==> pc / 65536 == 0
    ensures pc / 65536 % 256 <= 1
  {
  }

  lemma PushKeeps(d: Ram, base: int, frames: seq<Frame>, f: Frame, pc_3bytes: bool)
    requires Represents(d, base, frames, pc_3bytes) && InMemory(base, frames + [f], pc_3bytes)
    requires FrameFits(f, pc_3bytes)
    ensures var p := Pushed(d, f, pc_3bytes);
            && p.Some? && Represents(p.value, base, frames + [f], pc_3bytes)
            && SameBut(d, p.value, RESERVED, base + 1 - RESERVED)
  {
    hide Layout, Pushed, Sp, Bytes, PcFits;
    LayoutOfPush(frames, f, pc_3bytes);
    PushWrites(d, f, pc_3bytes);
    var r := Pushed(d, f, pc_3bytes).value;
    var layout, bytes := Layout(frames, pc_3bytes), Bytes(f, pc_3bytes);
    forall i | 0 <= i < |bytes + layout|
      ensures r[Sp(r) + 1 + i] == (bytes + layout)[i]
    {
      if i >= |bytes| {
        assert d[Sp(d) + 1 + (i - |bytes|)] == layout[i - |bytes|];
      }
    }
  }

  lemma PopKeeps(d: Ram, base: int, frames: seq<Frame>, f: Frame, pc_3bytes: bool)
    requires Represents(d, base, frames + [f], pc_3bytes)
    ensures var p := Popped(d, f, pc_3bytes);
            && p.Some? && p.value.0 == FrameValue(f)
            && Represents(p.value.1, base, frames, pc_3bytes)
            && SameBut(d, p.value.1, 0, 0)
  {
    hide Layout, Popped, Sp, Bytes, PcFits;
    LayoutOfPush(frames, f, pc_3bytes);
    var layout, bytes := Layout(frames, pc_3bytes), Bytes(f, pc_3bytes);
    assert forall i :: 0 <= i < |bytes| ==> (bytes + layout)[i] == bytes[i];
    assert f in frames + [f];
    PopReads(d, f, pc_3bytes);
    var r := Popped(d, f, pc_3bytes).value.1;
    forall i | 0 <= i < |layout|
      ensures r[Sp(r) + 1 + i] == layout[i]
    {
      assert d[Sp(d) + 1 + (|bytes| + i)] == (bytes + layout)[|bytes| + i];
    }
  }

  // ----- runs -------------------------------------------------------------------------------

  function AbstractRun(frames: seq<Frame>, ops: seq<Op>, pc_3bytes: bool): Option<(seq<Frame>, seq<nat>)>
    decreases |ops|
  {
    if ops == [] then Some((frames, []))
    else
      match AbstractStep(frames, ops[0], pc_3bytes)
      case None => None
      case Some((next, out)) =>
        match AbstractRun(next, ops[1..], pc_3bytes)
        case None => None
        case Some((last, outs)) => Some((last, out + outs))
  }

  function ConcreteRun(d: Ram, ops: seq<Op>, pc_3bytes: bool): Option<(Ram, seq<nat>)>
    decreases |ops|
  {
    if ops == [] then Some((d, []))
    else
      match ConcreteStep(d, ops[0], pc_3bytes)
      case None => None
      case Some((next, out)) =>
        match ConcreteRun(next, ops[1..], pc_3bytes)
        case None => None
        case Some((last, outs)) => Some((last, out + outs))
  }

  /** Every stack the run passes through lies in memory. */
  predicate RunInMemory(base: int, frames: seq<Frame>, ops: seq<Op>, pc_3bytes: bool)
    decreases |ops|
  {
    InMemory(base, frames, pc_3bytes)
    && (ops != [] && AbstractStep(frames, ops[0], pc_3bytes).Some? ==>
          RunInMemory(base, AbstractStep(frames, ops[0], pc_3bytes).value.0, ops[1..], pc_3bytes))
  }

  lemma StepRefines(d: Ram, base: int, frames: seq<Frame>, op: Op, pc_3bytes: bool)
    requires Represents(d, base, frames, pc_3bytes) && AbstractStep(frames, op, pc_3bytes).Some?
    requires InMemory(base, AbstractStep(frames, op, pc_3bytes).value.0, pc_3bytes)
    ensures var a, c := AbstractStep(frames, op, pc_3bytes).value, ConcreteStep(d, op, pc_3bytes);
            && c.Some? && c.value.1 == a.1
            && Represents(c.value.0, base, a.0, pc_3bytes)
            && SameBut(d, c.value.0, RESERVED, base + 1 - RESERVED)
  {
    hide Represents, InMemory, PushedByte, PushedPc, PoppedByte, PoppedPc;
    match op
    case PushByteOp(v) => PushKeeps(d, base, frames, ByteFrame(v), pc_3bytes);
    case PushPcOp(pc) => PushKeeps(d, base, frames, PcFrame(pc), pc_3bytes);
    case _ =>
      var f := frames[|frames| - 1];
      assert frames == frames[..|frames| - 1] + [f];
      PopKeeps(d, base, frames[..|frames| - 1], f, pc_3bytes);
  }

  lemma {:induction false} RunRefines(d: Ram, base: int, frames: seq<Frame>, ops: seq<Op>, pc_3bytes: bool)
    requires Represents(d, base, frames, pc_3bytes) && AbstractRun(frames, ops, pc_3bytes).Some?
    requires RunInMemory(base, frames, ops, pc_3bytes)
    ensures var a, c := AbstractRun(frames, ops, pc_3bytes).value, ConcreteRun(d, ops, pc_3bytes);
            && c.Some? && c.value.1 == a.1
            && Represents(c.value.0, base, a.0, pc_3bytes)
            && SameBut(d, c.value.0, RESERVED, base + 1 - RESERVED)
    decreases |ops|
  {
    hide Represents, InMemory, AbstractStep, ConcreteStep;
    if ops != [] {
      InMemoryFirst(base, frames, ops, pc_3bytes);
      StepRefines(d, base, frames, ops[0], pc_3bytes);
      var next := ConcreteStep(d, ops[0], pc_3bytes).value.0;
      RunRefines(next, base, AbstractStep(frames, ops[0], pc_3bytes).value.0, ops[1..], pc_3bytes);
    }
  }

  lemma InMemoryFirst(base: int, frames: seq<Frame>, ops: seq<Op>, pc_3bytes: bool)
    requires RunInMemory(base, frames, ops, pc_3bytes)
    requires ops != [] && AbstractStep(frames, ops[0], pc_3bytes).Some?
    ensures InMemory(base, AbstractStep(frames, ops[0], pc_3bytes).value.0, pc_3bytes)
  {
  }

  /**
    Any sequence of pushes and pops in which every pop meets a frame of its own kind runs without
    giving up, returns at every pop what was pushed, and, once the stack is empty again, leaves the
    stack pointer where it started and all memory but the stack's own as it was.
   */
  lemma StackRefinesSequence(d: Ram, ops: seq<Op>, pc_3bytes: bool)
    requires AbstractRun([], ops, pc_3bytes).Some?
    requires RunInMemory(Sp(d), [], ops, pc_3bytes)
    ensures var a, c := AbstractRun([], ops, pc_3bytes).value, ConcreteRun(d, ops, pc_3bytes);
            && c.Some? && c.value.1 == a.1
            && (a.0 == [] ==> Sp(c.value.0) == Sp(d))
            && SameBut(d, c.value.0, RESERVED, Sp(d) + 1 - RESERVED)
  {
    RunRefines(d, Sp(d), [], ops, pc_3bytes);
  }

  /**
    Where a pushed counter lies: its bytes at the old pointer and below it, the lowest at the highest
    address, and the pointer, low byte at 0x5D and high byte at 0x5E, behind them.
   */
  lemma CounterInMemory(d: Ram, pc: nat, pc_3bytes: bool)
    requires Sp(d) >= 0x62
    ensures var p, sp := PushedPc(d, pc, pc_3bytes), Sp(d);
            && p.Some?
            && p.value[sp] == pc % 256 && p.value[sp - 1] == pc / 256 % 256
            && (pc_3bytes ==> p.value[sp - 2] == pc / 65536 % 256)
            && PointerAt(p.value, sp - (if pc_3bytes then 3 else 2))
            && forall i :: 0 <= i < MAX_RAM_SIZE && i != 0x5D && i != 0x5E && !(sp - (if pc_3bytes then 3 else 2) < i <= sp) ==>
                 p.value[i] == d[i]
  {
    PointerInMemory(PushedPc(d, pc, pc_3bytes).value);
    hide Sp, WithSp;
  }

  /** The stack pointer as memory holds it. */
  predicate PointerAt(d: Ram, sp: int) {
    var low: int, high: int := d[0x5D], d[0x5E];
    sp == low + 256 * high
  }

  lemma PointerInMemory(d: Ram)
    ensures PointerAt(d, Sp(d))
  {
  }

  /** When a pop has nothing to return: beyond the end of memory, at the standard input port, or out of bounds. */
  lemma WhenPopsFail(d: Ram, pc_3bytes: bool)
    ensures PoppedByte(d).None? <==> Sp(d) == 65535 || Sp(d) == 0x51
    ensures var k := if pc_3bytes then 3 else 2;
            PoppedPc(d, pc_3bytes).None? <==>
              || Sp(d) + k > 65535 || 0x52 - k <= Sp(d) < 0x52
              || (pc_3bytes && d[Sp(d) + 1] >= 2)
  {
    hide Sp, WithSp;
  }

  // ----- the edge of the reserved area ------------------------------------------------------

  /**
    The check in `push_PC` looks at the first byte only. A counter that passes it is popped again
    unchanged if and only if it is not a counter of more than two bytes pushed in three at the first
    unreserved address, where its high byte runs into the stack pointer itself.
   */
  lemma GuardedPushReturns(d: Ram, pc: nat, pc_3bytes: bool)
    requires PcFits(pc, pc_3bytes)
    ensures var p := PushedPc(d, pc, pc_3bytes);
            && (p.Some? <==> Sp(d) >= 0x60)
            && (p.Some? ==>
                  && PoppedPc(p.value, pc_3bytes).Some?
                  && Sp(PoppedPc(p.value, pc_3bytes).value.1) == Sp(d)
                  && (PoppedPc(p.value, pc_3bytes).value.0 == pc
                      <==> !(pc_3bytes && Sp(d) == 0x60 && pc >= 65536)))
  {
    PcBytes(pc);
    if Sp(d) >= RESERVED {
      if Sp(d) == RESERVED && pc_3bytes {
        PushAtTheReservedArea(d, pc);
      } else {
        PushThere(d, pc, pc_3bytes);
      }
    }
  }

  /** Away from the stack pointer a pushed counter is read back. */
  lemma PushThere(d: Ram, pc: nat, pc_3bytes: bool)
    requires PcFits(pc, pc_3bytes) && Sp(d) >= RESERVED && !(Sp(d) == RESERVED && pc_3bytes)
    ensures var p := PushedPc(d, pc, pc_3bytes);
            && p.Some? && PoppedPc(p.value, pc_3bytes).Some?
            && PoppedPc(p.value, pc_3bytes).value.0 == pc && Sp(PoppedPc(p.value, pc_3bytes).value.1) == Sp(d)
  {
    hide Sp, WithSp;
    PcBytes(pc);
  }

  /**
    With the pointer at the first unreserved byte a three-byte counter comes back without its high
    byte.
   */
  lemma PushAtTheReservedArea(d: Ram, pc: nat)
    requires Sp(d) == RESERVED && pc < MAX_FLASH_SIZE / 2
    ensures var p := PushedPc(d, pc, true);
            && p.Some?
            && PoppedPc(p.value, true).Some?
            && PoppedPc(p.value, true).value.0 == pc % 65536 && Sp(PoppedPc(p.value, true).value.1) == Sp(d)
  {
    PcBytes(pc);
  }

  /**
    What the check lets a push do to the status register, which lies just below the stack: the second
    byte of a counter, or the third of a longer one, takes its place at the edge and nowhere else.
   */
  lemma PushOverwritesStatus(d: Ram, pc: nat, pc_3bytes: bool)
    requires Sp(d) >= RESERVED
    ensures var p := PushedPc(d, pc, pc_3bytes);
            && p.Some?
            && p.value[0x5F] ==
               if Sp(d) == 0x60 then pc / 256 % 256
               else if Sp(d) == 0x61 && pc_3bytes then pc / 65536 % 256
               else d[0x5F]
  {
    hide Sp, WithSp;
  }

  /** A byte that passes the check of `push_byte` comes back, and leaves the status register alone. */
  lemma GuardedByteReturns(d: Ram, value: byte)
    ensures var p := PushedByte(d, value);
            && (p.Some? <==> Sp(d) >= 0x60)
            && (p.Some? ==> p.value[0x5F] == d[0x5F] && PoppedByte(p.value).Some? && PoppedByte(p.value).value.0 == value)
  {
    hide Sp, WithSp;
  }
}
