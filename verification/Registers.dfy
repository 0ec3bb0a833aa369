/** The display controller's register file as the driver reaches it: the first `length` bytes are
    mapped, everything else goes through an INDEX/DATA window. Registers are numbered by 32-bit
    word; offsets are in bytes. */
module Registers {
  import opened WordBits

  /** Byte offsets as `unsigned long` has them, short of the last four, whose end would wrap. */
  type Offset = r: int | 0 <= r <= 0xFFFF_FFFF_FFFF_FFFB

  /** Byte offsets as `uint32_t` has them. */
  type Offset32 = r: int | 0 <= r <= 0xFFFF_FFFF

  /** The window's own two words. */
  const INDEX := 0xE
  const DATA := 0xF

  // ---- Numbers and words

  /** The 32-bit word with the binary digits of `n`. */
  function Digits(n: nat): bv32
  {
    if n == 0 then 0 else (Digits(n / 2) << 1) | (if n % 2 == 1 then 1 else 0)
  }

  /** The number that the lowest `width` binary digits of a word make. */
  function NumberOf(w: bv32, width: nat): nat
  {
    if width == 0 then 0 else 2 * NumberOf(w >> 1, width - 1) + (if w & 1 == 1 then 1 else 0)
  }

  const WIDTH: nat := 32

  /** The number that a word stored to INDEX is. */
  function IndexOf(w: bv32): (i: Offset32)
    ensures Digits(i) == w
  {
    NumberBelow(w, WIDTH);
    WordFits(w);
    DigitsOfNumber(w, WIDTH);
    PowerOfWidth();
    NumberOf(w, WIDTH)
  }

  function Power(k: nat): nat
  {
    if k == 0 then 1 else 2 * Power(k - 1)
  }

  lemma PowerOfWidth()
    ensures Power(WIDTH) == 0x1_0000_0000
  {
    assert Power(8) == 0x100;
    assert Power(16) == 0x1_0000;
    assert Power(24) == 0x100_0000;
    assert Power(32) == 0x1_0000_0000;
  }

  lemma {:induction false} NumberBelow(w: bv32, width: nat)
    ensures NumberOf(w, width) < Power(width)
    decreases width
  {
    if width == 0 {
    } else {
      NumberBelow(w >> 1, width - 1);
    }
  }

  /** The word has no digits beyond the lowest `width`. */
  ghost predicate FitsWidth(w: bv32, width: nat)
  {
    if width == 0 then w == 0 else FitsWidth(w >> 1, width - 1)
  }

  lemma FitsByte(w: bv32, width: nat)
    requires width >= 8 && FitsWidth(w >> 8, width - 8)
    ensures FitsWidth(w, width)
  {
    ShiftByte(w);
    assert FitsWidth(w >> 7, width - 7) && FitsWidth(w >> 6, width - 6) && FitsWidth(w >> 5, width - 5);
    assert FitsWidth(w >> 4, width - 4);
    assert FitsWidth(w >> 3, width - 3) && FitsWidth(w >> 2, width - 2) && FitsWidth(w >> 1, width - 1);
  }

  lemma ShiftByte(w: bv32)
    ensures (w >> 7) >> 1 == w >> 8 && (w >> 6) >> 1 == w >> 7 && (w >> 5) >> 1 == w >> 6 && (w >> 4) >> 1 == w >> 5
    ensures (w >> 3) >> 1 == w >> 4 && (w >> 2) >> 1 == w >> 3 && (w >> 1) >> 1 == w >> 2
  {
  }

  lemma ShiftBytes(w: bv32)
    ensures (w >> 8) >> 8 == w >> 16 && (w >> 16) >> 8 == w >> 24 && (w >> 24) >> 8 == 0
  {
  }

  lemma WordFits(w: bv32)
    ensures FitsWidth(w, WIDTH)
  {
    ShiftBytes(w);
    FitsByte(w >> 24, 8);
    FitsByte(w >> 16, 16);
    FitsByte(w >> 8, 24);
    FitsByte(w, WIDTH);
  }

  lemma LowBit(w: bv32)
    ensures ((w >> 1) << 1) | (if w & 1 == 1 then 1 else 0) == w
  {
  }

  lemma DigitsStep(n: nat, odd: bool)
    ensures Digits(2 * n + if odd then 1 else 0) == (Digits(n) << 1) | (if odd then 1 else 0)
  {
    var m := 2 * n + if odd then 1 else 0;
    assert m / 2 == n && (m % 2 == 1 <==> odd);
  }

  lemma {:induction false} DigitsOfNumber(w: bv32, width: nat)
    requires FitsWidth(w, width)
    ensures Digits(NumberOf(w, width)) == w
    decreases width
  {
    if width == 0 {
    } else {
      DigitsOfNumber(w >> 1, width - 1);
      DigitsStep(NumberOf(w >> 1, width - 1), w & 1 == 1);
      LowBit(w);
    }
  }

  // ---- The device

  /** What the driver did to the device: a store that reached a register, with the value that the
      register seven words below it (for a plane's surface register, its control register) had
      at that moment, or a new number in INDEX. */
  datatype Event = Store(word: int, value: bv32, control: bv32) | Select(offset: Offset32)

  /** The whole register file; a register never stored to reads as zero. The INDEX register is kept
      as the number it holds. */
  datatype Device = Device(length: nat, index: Offset32, registers: map<int, bv32>, log: seq<Event>)

  /** The value of a register other than INDEX. */
  function Reg(d: Device, n: int): bv32
  {
    if n in d.registers then d.registers[n] else 0
  }

  function Get(d: Device, n: int): bv32
  {
    if n == INDEX then Digits(d.index) else Reg(d, n)
  }

  function SetIndex(d: Device, i: Offset32): Device
  {
    d.(index := i, log := d.log + [Select(i)])
  }

  function Put(d: Device, n: int, v: bv32): Device
  {
    if n == INDEX then SetIndex(d, IndexOf(v))
    else d.(registers := d.registers[n := v], log := d.log + [Store(n, v, Reg(d, n - 7))])
  }

  /** The register behind a mapped word: DATA stands for the one that INDEX selects. */
  function Cell(d: Device, word: int): int
  {
    if word == DATA then d.index / 4 else word
  }

  predicate Mapped(d: Device, reg: Offset)
  {
    reg + 4 <= d.length
  }

  /** The device after a call, and what the call returns. */
  datatype Reply = Reply(device: Device, value: bv32)

  function Read32(d: Device, reg: Offset): Reply
  {
    if Mapped(d, reg) then Reply(d, Get(d, Cell(d, reg / 4)))
    else
      var d' := SetIndex(d, reg % 0x1_0000_0000);
      Reply(d', Get(d', Cell(d', DATA)))
  }

  /** The store at the end of writeReg32. */
  function StoreTo(d: Device, reg: Offset, val: bv32): Device
  {
    if Mapped(d, reg) then Put(d, Cell(d, reg / 4), val)
    else
      var d' := SetIndex(d, reg % 0x1_0000_0000);
      Put(d', Cell(d', DATA), val)
  }

  predicate LooksLikePlaneSurf(reg: Offset)
  {
    0x60000 <= reg <= 0xBFFFF && reg % 0x1000 == 0x19C
  }

  function Write32(d: Device, reg: Offset, val: bv32): Device
    decreases if LooksLikePlaneSurf(reg) then 1 else 0
  {
    if LooksLikePlaneSurf(reg) && val == 0 then
      var ctlReg := reg - 0x1C;
      var Reply(d1, planCtl) := Read32(d, ctlReg);
      if planCtl & ENABLE != 0 then
        var Reply(d2, currentSurf) := Read32(d1, reg);
        if currentSurf != 0 then StoreTo(d2, reg, currentSurf)
        else StoreTo(Write32(d2, ctlReg, planCtl & !ENABLE), reg, val)
      else StoreTo(d1, reg, val)
    else StoreTo(d, reg, val)
  }

  // ---- Calls

  /** Calls of the 32-bit interface. Every read-modify-write, intel_de_rmw and the whitelist and
      workaround calls alike, clears some bits of what it reads and then turns some on. */
  datatype Call =
    | Read(reg: Offset)
    | Write(reg: Offset, val: bv32)
    | Modify(r: Offset32, clear: bv32, on: bv32)

  function Where(c: Call): Offset
  {
    if c.Modify? then c.r else c.reg
  }

  /** A call; one that returns nothing answers zero, a modification what it found. */
  function Exec(d: Device, c: Call): Reply
  {
    match c
    case Read(reg) => Read32(d, reg)
    case Write(reg, val) => Reply(Write32(d, reg, val), 0)
    case Modify(r, clear, on) =>
      var Reply(d1, was) := Read32(d, r);
      Reply(Write32(d1, r, Modified(was, clear, on)), was)
  }

  function RunCalls(d: Device, calls: seq<Call>): Device
    decreases |calls|
  {
    if calls == [] then d else RunCalls(Exec(d, calls[0]).device, calls[1..])
  }

  function Results(d: Device, calls: seq<Call>): seq<bv32>
    decreases |calls|
  {
    if calls == [] then []
    else [Exec(d, calls[0]).value] + Results(Exec(d, calls[0]).device, calls[1..])
  }

  // ---- Which register an offset reaches

  function Target(d: Device, reg: Offset): int
  {
    if Mapped(d, reg) then Cell(d, reg / 4) else (reg % 0x1_0000_0000) / 4
  }

  lemma ReadReaches(d: Device, reg: Offset)
    ensures Read32(d, reg).device.registers == d.registers && Read32(d, reg).device.length == d.length
    ensures Target(d, reg) != INDEX ==> Read32(d, reg).value == Reg(d, Target(d, reg))
  {
  }

  lemma StoreReaches(d: Device, reg: Offset, val: bv32)
    ensures StoreTo(d, reg, val).length == d.length
    ensures StoreTo(d, reg, val).registers
            == if Target(d, reg) == INDEX then d.registers else d.registers[Target(d, reg) := val]
  {
  }

  /** Word-aligned offsets below 4 GiB other than DATA: what callers of the 32-bit interface use. */
  predicate Ordinary(reg: Offset)
  {
    reg % 4 == 0 && reg <= 0xFFFF_FFFF && reg / 4 != DATA
  }

  lemma OrdinaryTarget(d: Device, reg: Offset)
    requires Ordinary(reg)
    ensures Target(d, reg) == reg / 4
  {
  }

  /** A plane's surface register; its control register is seven words below. */
  predicate Surf(n: int)
  {
    0x18000 <= n <= 0x2FFFF && n % 0x400 == 0x67
  }

  lemma SurfOffsets(reg: Offset)
    ensures Ordinary(reg) ==> (Surf(reg / 4) <==> LooksLikePlaneSurf(reg))
    ensures LooksLikePlaneSurf(reg) ==> Ordinary(reg) && Ordinary(reg - 0x1C) && !LooksLikePlaneSurf(reg - 0x1C)
    ensures LooksLikePlaneSurf(reg) ==> (reg - 0x1C) / 4 == reg / 4 - 7
  {
    if reg % 4 == 0 { WordRemainder(reg / 4); }
    if reg % 0x1000 == 0x19C { SurfRemainders(reg); }
  }

  lemma WordRemainder(n: int)
    ensures n % 0x400 == 0x67 <==> (4 * n) % 0x1000 == 0x19C
  {
    assert n == 0x400 * (n / 0x400) + n % 0x400;
    assert 4 * n == 0x1000 * (n / 0x400) + 4 * (n % 0x400);
  }

  lemma SurfRemainders(reg: int)
    requires reg % 0x1000 == 0x19C
    ensures reg % 4 == 0 && (reg - 0x1C) % 0x1000 == 0x180
    ensures (reg - 0x1C) % 4 == 0 && (reg - 0x1C) / 4 == reg / 4 - 7
  {
  }
}
