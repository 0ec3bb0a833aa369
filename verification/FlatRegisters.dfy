/** The register file that callers of the 32-bit interface may think of: one flat map from register
    numbers to values, with no mapping length and no window. The two-path accesses refine it. */
module FlatRegisters {
  import opened WordBits
  import opened Registers

  type Flat = map<int, bv32>

  function Val(m: Flat, n: int): bv32
  {
    if n in m then m[n] else 0
  }

  /** The plane whose surface register is `n` is enabled. */
  predicate Enabled(m: Flat, n: int)
  {
    Val(m, n - 7) & 0x8000_0000 != 0
  }

  /** A guarded write: zero is not put into the surface register of an enabled plane. If the register
      holds something else that stays; if it is zero already the plane is disabled. */
  function FlatWrite(m: Flat, n: int, v: bv32): Flat
  {
    if Surf(n) && v == 0 && Enabled(m, n) then
      if Val(m, n) != 0 then m else m[n - 7 := Val(m, n - 7) & 0x7FFF_FFFF][n := 0]
    else m[n := v]
  }

  datatype FlatReply = FlatReply(flat: Flat, value: bv32)

  function FlatExec(m: Flat, c: Call): FlatReply
  {
    var n := Where(c) / 4;
    match c
    case Read(_) => FlatReply(m, Val(m, n))
    case Write(_, val) => FlatReply(FlatWrite(m, n, val), 0)
    case Modify(_, clear, on) => FlatReply(FlatWrite(m, n, Modified(Val(m, n), clear, on)), Val(m, n))
  }

  function FlatRun(m: Flat, calls: seq<Call>): Flat
    decreases |calls|
  {
    if calls == [] then m else FlatRun(FlatExec(m, calls[0]).flat, calls[1..])
  }

  function FlatResults(m: Flat, calls: seq<Call>): seq<bv32>
    decreases |calls|
  {
    if calls == [] then []
    else [FlatExec(m, calls[0]).value] + FlatResults(FlatExec(m, calls[0]).flat, calls[1..])
  }

  /** Calls at ordinary offsets other than the window's own two words. */
  predicate Regular(c: Call)
  {
    Ordinary(Where(c)) && Where(c) / 4 != INDEX
  }

  lemma ReadRefines(d: Device, reg: Offset)
    requires Ordinary(reg) && reg / 4 != INDEX
    ensures Read32(d, reg).device.registers == d.registers && Read32(d, reg).value == Val(d.registers, reg / 4)
  {
    OrdinaryTarget(d, reg);
    ReadReaches(d, reg);
  }

  lemma StoreRefines(d: Device, reg: Offset, val: bv32)
    requires Ordinary(reg)
    ensures StoreTo(d, reg, val).registers == if reg / 4 == INDEX then d.registers else d.registers[reg / 4 := val]
  {
    OrdinaryTarget(d, reg);
    StoreReaches(d, reg, val);
  }

  lemma WriteRefines(d: Device, reg: Offset, val: bv32)
    requires Ordinary(reg) && reg / 4 != INDEX
    ensures Write32(d, reg, val).registers == FlatWrite(d.registers, reg / 4, val)
  {
    SurfOffsets(reg);
    StoreRefines(d, reg, val);
    if LooksLikePlaneSurf(reg) && val == 0 {
      GuardRefines(d, reg);
    }
  }

  lemma GuardRefines(d: Device, reg: Offset)
    requires LooksLikePlaneSurf(reg)
    ensures Write32(d, reg, 0).registers == FlatWrite(d.registers, reg / 4, 0)
  {
    SurfOffsets(reg);
    ReadRefines(d, reg - 0x1C);
    var Reply(d1, planCtl) := Read32(d, reg - 0x1C);
    ReadRefines(d1, reg);
    var Reply(d2, currentSurf) := Read32(d1, reg);
    GuardSteps(d, reg, d1, planCtl, d2, currentSurf);
  }

  /** The guard's three ways, given what its two reads return. */
  lemma GuardSteps(d: Device, reg: Offset, d1: Device, planCtl: bv32, d2: Device, currentSurf: bv32)
    requires LooksLikePlaneSurf(reg) && Surf(reg / 4) && Ordinary(reg)
    requires Ordinary(reg - 0x1C) && !LooksLikePlaneSurf(reg - 0x1C) && (reg - 0x1C) / 4 == reg / 4 - 7
    requires Read32(d, reg - 0x1C) == Reply(d1, planCtl) && Read32(d1, reg) == Reply(d2, currentSurf)
    requires d.registers == d1.registers == d2.registers
    requires planCtl == Val(d.registers, reg / 4 - 7) && currentSurf == Val(d.registers, reg / 4)
    ensures Write32(d, reg, 0).registers == FlatWrite(d.registers, reg / 4, 0)
  {
    var off := planCtl & !ENABLE;
    DisabledBits(planCtl);
    if planCtl & ENABLE == 0 {
      GuardIdle(d, reg, d1, planCtl);
      StoreRefines(d1, reg, 0);
    } else if currentSurf != 0 {
      GuardKeeps(d, reg, d1, planCtl, d2, currentSurf);
      StoreRefines(d2, reg, currentSurf);
      assert d.registers[reg / 4 := currentSurf] == d.registers;
    } else {
      GuardDisables(d, reg, d1, planCtl, d2);
      StoreRefines(d2, reg - 0x1C, off);
      StoreRefines(StoreTo(d2, reg - 0x1C, off), reg, 0);
    }
  }

  lemma GuardIdle(d: Device, reg: Offset, d1: Device, planCtl: bv32)
    requires LooksLikePlaneSurf(reg)
    requires Read32(d, reg - 0x1C) == Reply(d1, planCtl) && planCtl & ENABLE == 0
    ensures Write32(d, reg, 0) == StoreTo(d1, reg, 0)
  {
  }

  lemma GuardKeeps(d: Device, reg: Offset, d1: Device, planCtl: bv32, d2: Device, currentSurf: bv32)
    requires LooksLikePlaneSurf(reg)
    requires Read32(d, reg - 0x1C) == Reply(d1, planCtl) && Read32(d1, reg) == Reply(d2, currentSurf)
    requires planCtl & ENABLE != 0 && currentSurf != 0
    ensures Write32(d, reg, 0) == StoreTo(d2, reg, currentSurf)
  {
  }

  lemma GuardDisables(d: Device, reg: Offset, d1: Device, planCtl: bv32, d2: Device)
    requires LooksLikePlaneSurf(reg) && !LooksLikePlaneSurf(reg - 0x1C)
    requires Read32(d, reg - 0x1C) == Reply(d1, planCtl) && Read32(d1, reg) == Reply(d2, 0)
    requires planCtl & ENABLE != 0
    ensures Write32(d, reg, 0) == StoreTo(StoreTo(d2, reg - 0x1C, planCtl & !ENABLE), reg, 0)
  {
  }

  lemma ExecRefines(d: Device, c: Call)
    requires Regular(c)
    ensures Exec(d, c).device.registers == FlatExec(d.registers, c).flat
    ensures Exec(d, c).value == FlatExec(d.registers, c).value
  {
    var reg := Where(c);
    if c.Write? {
      WriteRefines(d, reg, c.val);
    } else {
      ReadRefines(d, reg);
      if c.Modify? {
        var Reply(d1, was) := Read32(d, reg);
        WriteRefines(d1, reg, Modified(was, c.clear, c.on));
      }
    }
  }

  /** Every run of regular calls computes on the device what it computes on the flat map: the same
      values come back and the same registers result, however much is mapped and whatever INDEX
      held. */
  lemma {:induction false} RunRefines(d: Device, calls: seq<Call>)
    requires forall c :: c in calls ==> Regular(c)
    ensures RunCalls(d, calls).registers == FlatRun(d.registers, calls)
    ensures Results(d, calls) == FlatResults(d.registers, calls)
    decreases |calls|
  {
    if calls == [] {
    } else {
      ExecRefines(d, calls[0]);
      RunRefines(Exec(d, calls[0]).device, calls[1..]);
    }
  }

  /** What a write leaves alone: apart from the addressed register, only the paired control register
      of a surface register can change, and of that only the enable bit. */
  lemma WriteFrame(d: Device, reg: Offset, val: bv32, n: int)
    requires Ordinary(reg) && reg / 4 != INDEX && n != reg / 4
    ensures OnlyDisables(d.registers, reg / 4, val, n, Reg(Write32(d, reg, val), n))
  {
    WriteRefines(d, reg, val);
    FlatFrame(d.registers, reg / 4, val, n);
  }

  /** Writing `v` to `n` turned the value of another register `k` into `after`. */
  predicate OnlyDisables(m: Flat, n: int, v: bv32, k: int, after: bv32)
  {
    && after & 0x7FFF_FFFF == Val(m, k) & 0x7FFF_FFFF
    && (after != Val(m, k) ==>
          Surf(n) && v == 0 && k == n - 7 && Val(m, n) == 0 && Enabled(m, n) && after & 0x8000_0000 == 0)
  }

  lemma FlatFrame(m: Flat, n: int, v: bv32, k: int)
    requires k != n
    ensures OnlyDisables(m, n, v, k, Val(FlatWrite(m, n, v), k))
  {
    FlatWritten(m, n, v, k);
    LowBitsStay(m, n, v, k, Val(FlatWrite(m, n, v), k));
    ChangedWhen(m, n, v, k, Val(FlatWrite(m, n, v), k));
  }

  lemma LowBitsStay(m: Flat, n: int, v: bv32, k: int, after: bv32)
    requires k != n && WriteLeaves(m, Surf(n), n - 7, n, v, k, after)
    ensures after & 0x7FFF_FFFF == Val(m, k) & 0x7FFF_FFFF
  {
    assert after == Val(m, k) || after == Val(m, k) & 0x7FFF_FFFF;
  }

  lemma ChangedWhen(m: Flat, n: int, v: bv32, k: int, after: bv32)
    requires k != n && WriteLeaves(m, Surf(n), n - 7, n, v, k, after)
    ensures after != Val(m, k) ==> Surf(n) && v == 0 && k == n - 7 && Val(m, n) == 0 && Enabled(m, n)
    ensures after != Val(m, k) ==> after & 0x8000_0000 == 0
  {
  }

  /** A write of `val` to `surface` leaves register `n` as `after`: the addressed one has the value, except
      that, if it is a plane's, a zero does not take effect while bit 31 of the control register is
      on; and then, if the surface is zero already, that bit goes off. */
  predicate WriteLeaves(m: Flat, plane: bool, control: int, surface: int, val: bv32, n: int, after: bv32)
  {
    var guards := plane && val == 0 && Val(m, control) & 0x8000_0000 != 0;
    var disables := guards && Val(m, surface) == 0 && n == control;
    && (disables ==> after == Val(m, control) & 0x7FFF_FFFF)
    && (guards && !disables ==> after == Val(m, n))
    && (!guards && n == surface ==> after == val)
    && (!guards && n != surface ==> after == Val(m, n))
  }

  /** Every register after a guarded write. */
  lemma FlatWritten(m: Flat, n: int, v: bv32, k: int)
    ensures WriteLeaves(m, Surf(n), n - 7, n, v, k, Val(FlatWrite(m, n, v), k))
  {
  }

  /** Every register after a write at an ordinary offset; a plane's surface register is one at 0x19C in a
      page of its range, with the control register 0x1C below. */
  lemma WriteMeans(d: Device, reg: Offset, val: bv32, n: int)
    requires reg % 4 == 0 && reg <= 0xFFFF_FFFF && reg != 0x38 && reg != 0x3C
    ensures var plane := 0x60000 <= reg <= 0xBFFFF && reg % 0x1000 == 0x19C;
      WriteLeaves(d.registers, plane, (reg - 0x1C) / 4, reg / 4, val, n, Reg(Write32(d, reg, val), n))
  {
    SurfOffsets(reg);
    WriteRefines(d, reg, val);
    OffsetWritten(d.registers, (reg - 0x1C) / 4, reg / 4, val, n);
  }

  lemma OffsetWritten(m: Flat, control: int, surface: int, val: bv32, n: int)
    requires Surf(surface) ==> control == surface - 7
    ensures WriteLeaves(m, Surf(surface), control, surface, val, n, Val(FlatWrite(m, surface, val), n))
  {
    FlatWritten(m, surface, val, n);
    if Surf(surface) { assert control == surface - 7; }
  }

  /** Which register an offset reaches: inside the mapping the word there, the word at 0x3C standing for the
      one selected; outside, the offset cut to 32 bits selects. */
  lemma TargetMeans(d: Device, reg: Offset)
    ensures Target(d, reg) ==
            if reg + 4 > d.length then (reg % 0x1_0000_0000) / 4
            else if reg / 4 == 0x3C / 4 then d.index / 4
            else reg / 4
    ensures reg + 4 > d.length ==> Read32(d, reg).device.index == reg % 0x1_0000_0000
  {
  }

  /** The window worked by hand: a number stored at 0x38 selects the register that 0x3C then stands for. */
  lemma WindowMeans(d: Device, w: bv32, v: bv32)
    requires 0x40 <= d.length && IndexOf(w) / 4 != 0x38 / 4
    ensures Read32(Write32(d, 0x38, w), 0x3C).value == Reg(d, IndexOf(w) / 4)
    ensures Write32(Write32(d, 0x38, w), 0x3C, v).registers == d.registers[IndexOf(w) / 4 := v]
  {
  }

  // ---- The log

  function Replay(m: Flat, events: seq<Event>): Flat
    decreases |events|
  {
    if events == [] then m
    else Replay(if events[0].Store? then m[events[0].word := events[0].value] else m, events[1..])
  }

  /** `d'` is `d` after some more events, and its registers are what those events make of them. */
  ghost predicate Follows(d: Device, d': Device)
    ensures Follows(d, d') ==> |d.log| <= |d'.log|
  {
    |d.log| <= |d'.log| && d'.log[..|d.log|] == d.log &&
    d'.registers == Replay(d.registers, d'.log[|d.log|..])
  }

  lemma {:induction false} ReplayTwice(m: Flat, a: seq<Event>, b: seq<Event>)
    ensures Replay(m, a + b) == Replay(Replay(m, a), b)
    decreases |a|
  {
    if a == [] {
      assert a + b == b;
    } else {
      assert (a + b)[1..] == a[1..] + b;
      ReplayTwice(if a[0].Store? then m[a[0].word := a[0].value] else m, a[1..], b);
    }
  }

  lemma FollowsFurther(d: Device, d': Device, d'': Device)
    requires Follows(d, d') && Follows(d', d'')
    ensures Follows(d, d'')
  {
    var a, b := d'.log[|d.log|..], d''.log[|d'.log|..];
    assert d''.log[|d.log|..] == a + b by {
      assert d''.log == d''.log[..|d'.log|] + b;
    }
    ReplayTwice(d.registers, a, b);
    assert d''.log[..|d.log|] == d''.log[..|d'.log|][..|d.log|];
  }

  lemma ReadFollows(d: Device, reg: Offset)
    ensures Follows(d, Read32(d, reg).device)
  {
    IndexFollows(d, reg % 0x1_0000_0000);
  }

  lemma IndexFollows(d: Device, i: Offset32)
    ensures Follows(d, SetIndex(d, i))
  {
    assert SetIndex(d, i).log[|d.log|..] == [Select(i)];
  }

  lemma PutFollows(d: Device, n: int, v: bv32)
    ensures Follows(d, Put(d, n, v))
  {
    if n == INDEX {
      IndexFollows(d, IndexOf(v));
    } else {
      var e := Store(n, v, Reg(d, n - 7));
      assert Put(d, n, v).log[|d.log|..] == [e];
      assert Replay(d.registers, [e]) == d.registers[n := v];
    }
  }

  lemma StoreFollows(d: Device, reg: Offset, val: bv32)
    ensures Follows(d, StoreTo(d, reg, val))
  {
    if Mapped(d, reg) {
      PutFollows(d, Cell(d, reg / 4), val);
    } else {
      var d' := SetIndex(d, reg % 0x1_0000_0000);
      IndexFollows(d, reg % 0x1_0000_0000);
      PutFollows(d', Cell(d', DATA), val);
      FollowsFurther(d, d', Put(d', Cell(d', DATA), val));
    }
  }

  lemma ReadAfter(d: Device, d': Device, reg: Offset)
    requires Follows(d, d')
    ensures Follows(d, Read32(d', reg).device)
  {
    ReadFollows(d', reg);
    FollowsFurther(d, d', Read32(d', reg).device);
  }

  lemma StoreAfter(d: Device, d': Device, reg: Offset, val: bv32)
    requires Follows(d, d')
    ensures Follows(d, StoreTo(d', reg, val))
  {
    StoreFollows(d', reg, val);
    FollowsFurther(d, d', StoreTo(d', reg, val));
  }

  lemma WriteAfter(d: Device, d': Device, reg: Offset, val: bv32)
    requires Follows(d, d')
    ensures Follows(d, Write32(d', reg, val))
  {
    if LooksLikePlaneSurf(reg) && val == 0 {
      GuardAfter(d, d', reg);
    } else {
      StoreAfter(d, d', reg, val);
    }
  }

  lemma GuardAfter(d: Device, d': Device, reg: Offset)
    requires Follows(d, d') && LooksLikePlaneSurf(reg)
    ensures Follows(d, Write32(d', reg, 0))
  {
    SurfOffsets(reg);
    ReadAfter(d, d', reg - 0x1C);
    var Reply(d1, planCtl) := Read32(d', reg - 0x1C);
    ReadAfter(d, d1, reg);
    var Reply(d2, currentSurf) := Read32(d1, reg);
    GuardStepsAfter(d, d', reg, d1, planCtl, d2, currentSurf);
  }

  lemma GuardStepsAfter(d: Device, d': Device, reg: Offset, d1: Device, planCtl: bv32, d2: Device, currentSurf: bv32)
    requires LooksLikePlaneSurf(reg) && !LooksLikePlaneSurf(reg - 0x1C)
    requires Read32(d', reg - 0x1C) == Reply(d1, planCtl) && Read32(d1, reg) == Reply(d2, currentSurf)
    requires Follows(d, d1) && Follows(d, d2)
    ensures Follows(d, Write32(d', reg, 0))
  {
    if planCtl & ENABLE == 0 {
      GuardIdle(d', reg, d1, planCtl);
      StoreAfter(d, d1, reg, 0);
    } else if currentSurf != 0 {
      GuardKeeps(d', reg, d1, planCtl, d2, currentSurf);
      StoreAfter(d, d2, reg, currentSurf);
    } else {
      GuardDisables(d', reg, d1, planCtl, d2);
      DisableAfter(d, d2, reg, planCtl & !ENABLE);
    }
  }

  lemma DisableAfter(d: Device, d': Device, reg: Offset, off: bv32)
    requires Follows(d, d') && reg >= 0x1C
    ensures Follows(d, StoreTo(StoreTo(d', reg - 0x1C, off), reg, 0))
  {
    StoreAfter(d, d', reg - 0x1C, off);
    StoreAfter(d, StoreTo(d', reg - 0x1C, off), reg, 0);
  }

  lemma NoEvents(d: Device)
    ensures Follows(d, d)
  {
    assert d.log[|d.log|..] == [];
  }

  lemma ExecFollows(d: Device, c: Call)
    ensures Follows(d, Exec(d, c).device)
  {
    NoEvents(d);
    ReadAfter(d, d, Where(c));
    var Reply(d1, was) := Read32(d, Where(c));
    if c.Write? {
      WriteAfter(d, d, c.reg, c.val);
    } else if c.Modify? {
      WriteAfter(d, d1, c.r, Modified(was, c.clear, c.on));
    }
  }

  /** The log is complete: after any run at any offsets, replaying it gives the registers. */
  lemma {:induction false} RunFollows(d: Device, calls: seq<Call>)
    ensures Follows(d, RunCalls(d, calls))
    decreases |calls|
  {
    if calls == [] {
    } else {
      var d' := Exec(d, calls[0]).device;
      ExecFollows(d, calls[0]);
      RunFollows(d', calls[1..]);
      FollowsFurther(d, d', RunCalls(d', calls[1..]));
    }
  }

  /** The value of the last store to `n`, or `v` if there is none. */
  function Latest(events: seq<Event>, n: int, v: bv32): bv32
    decreases |events|
  {
    if events == [] then v
    else
      var last := events[|events| - 1];
      if last.Store? && last.word == n then last.value else Latest(events[..|events| - 1], n, v)
  }

  lemma {:induction false} ReplayLatest(m: Flat, events: seq<Event>, n: int)
    ensures Val(Replay(m, events), n) == Latest(events, n, Val(m, n))
    decreases |events|
  {
    if events == [] {
    } else {
      var front, last := events[..|events| - 1], events[|events| - 1];
      assert events == front + [last];
      ReplayTwice(m, front, [last]);
      ReplayLatest(m, front, n);
      assert Replay(Replay(m, front), [last])
             == if last.Store? then Replay(m, front)[last.word := last.value] else Replay(m, front);
    }
  }

  /** A read at a regular offset after any run whatever returns the last value stored to that
      register, or what it held before the run; and it changes no register. */
  lemma ReadsLatest(d: Device, calls: seq<Call>, reg: Offset)
    requires Regular(Read(reg))
    ensures var d' := RunCalls(d, calls);
      && |d.log| <= |d'.log|
      && Read32(d', reg).value == Latest(d'.log[|d.log|..], reg / 4, Reg(d, reg / 4))
      && Read32(d', reg).device.registers == d'.registers
  {
    var d' := RunCalls(d, calls);
    RunFollows(d, calls);
    ReadRefines(d', reg);
    ReplayLatest(d.registers, d'.log[|d.log|..], reg / 4);
  }
}
