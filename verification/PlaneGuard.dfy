/** What the guard in writeReg32 achieves: no enabled display plane is armed with a zero surface. */
module PlaneGuard {
  import opened WordBits
  import opened Registers
  import opened FlatRegisters

  /** The store does not put zero into the surface register of a plane that is enabled right then. */
  predicate Safe(e: Event)
  {
    e.Store? && Surf(e.word) && e.value == 0 ==> e.control & 0x8000_0000 == 0
  }

  ghost predicate AllSafe(log: seq<Event>)
  {
    forall i :: 0 <= i < |log| ==> Safe(log[i])
  }

  /** Storing `val` to register `n` now would arm an enabled plane with zero. */
  predicate Strikes(d: Device, n: int, val: bv32)
  {
    Surf(n) && val == 0 && Enabled(d.registers, n)
  }

  lemma AppendSafe(log: seq<Event>, e: Event)
    requires AllSafe(log)
    ensures AllSafe(log + [e]) <==> Safe(e)
  {
    assert (log + [e])[|log|] == e;
    assert forall i :: 0 <= i < |log| ==> (log + [e])[i] == log[i];
  }

  lemma ReadSafe(d: Device, reg: Offset)
    requires AllSafe(d.log)
    ensures AllSafe(Read32(d, reg).device.log)
  {
    AppendSafe(d.log, Select(reg % 0x1_0000_0000));
  }

  lemma PutSafe(d: Device, n: int, val: bv32)
    requires AllSafe(d.log)
    ensures AllSafe(Put(d, n, val).log) <==> !Strikes(d, n, val)
  {
    if n == INDEX {
      AppendSafe(d.log, Select(IndexOf(val)));
    } else {
      AppendSafe(d.log, Store(n, val, Reg(d, n - 7)));
    }
  }

  lemma StoreSafe(d: Device, reg: Offset, val: bv32)
    requires AllSafe(d.log)
    ensures AllSafe(StoreTo(d, reg, val).log) <==> !Strikes(d, Target(d, reg), val)
  {
    if Mapped(d, reg) {
      PutSafe(d, Target(d, reg), val);
    } else {
      var d' := SetIndex(d, reg % 0x1_0000_0000);
      AppendSafe(d.log, Select(reg % 0x1_0000_0000));
      PutSafe(d', Target(d, reg), val);
    }
  }

  /** Exactly when a write is safe, for every offset: an offset that does not look like a surface
      register must not reach one of an enabled plane with a zero. */
  lemma WriteSafe(d: Device, reg: Offset, val: bv32)
    requires AllSafe(d.log)
    ensures AllSafe(Write32(d, reg, val).log) <==>
            LooksLikePlaneSurf(reg) || !Strikes(d, Target(d, reg), val)
  {
    if LooksLikePlaneSurf(reg) && val == 0 {
      GuardSafe(d, reg);
    } else {
      StoreSafe(d, reg, val);
    }
  }

  lemma GuardSafe(d: Device, reg: Offset)
    requires AllSafe(d.log) && LooksLikePlaneSurf(reg)
    ensures AllSafe(Write32(d, reg, 0).log)
  {
    SurfOffsets(reg);
    ReadRefines(d, reg - 0x1C);
    ReadSafe(d, reg - 0x1C);
    var Reply(d1, planCtl) := Read32(d, reg - 0x1C);
    ReadRefines(d1, reg);
    ReadSafe(d1, reg);
    var Reply(d2, currentSurf) := Read32(d1, reg);
    GuardStepsSafe(d, reg, d1, planCtl, d2, currentSurf);
  }

  lemma GuardStepsSafe(d: Device, reg: Offset, d1: Device, planCtl: bv32, d2: Device, currentSurf: bv32)
    requires LooksLikePlaneSurf(reg) && Ordinary(reg)
    requires Ordinary(reg - 0x1C) && !LooksLikePlaneSurf(reg - 0x1C) && (reg - 0x1C) / 4 == reg / 4 - 7
    requires Read32(d, reg - 0x1C) == Reply(d1, planCtl) && Read32(d1, reg) == Reply(d2, currentSurf)
    requires d.registers == d1.registers == d2.registers && AllSafe(d1.log) && AllSafe(d2.log)
    requires planCtl == Val(d.registers, reg / 4 - 7)
    ensures AllSafe(Write32(d, reg, 0).log)
  {
    var off := planCtl & !ENABLE;
    OrdinaryTarget(d1, reg);
    OrdinaryTarget(d2, reg);
    if planCtl & ENABLE == 0 {
      GuardIdle(d, reg, d1, planCtl);
      StoreSafe(d1, reg, 0);
    } else if currentSurf != 0 {
      GuardKeeps(d, reg, d1, planCtl, d2, currentSurf);
      StoreSafe(d2, reg, currentSurf);
    } else {
      GuardDisables(d, reg, d1, planCtl, d2);
      SurfOffsets(reg - 0x1C);
      DisableSafe(d2, reg, off);
    }
  }

  lemma DisableSafe(d: Device, reg: Offset, off: bv32)
    requires 0x1C <= reg && Ordinary(reg) && AllSafe(d.log) && off & ENABLE == 0
    requires Ordinary(reg - 0x1C) && (reg - 0x1C) / 4 == reg / 4 - 7 && reg / 4 - 7 != INDEX && !Surf(reg / 4 - 7)
    ensures AllSafe(StoreTo(StoreTo(d, reg - 0x1C, off), reg, 0).log)
  {
    var d' := StoreTo(d, reg - 0x1C, off);
    OrdinaryTarget(d, reg - 0x1C);
    StoreSafe(d, reg - 0x1C, off);
    StoreRefines(d, reg - 0x1C, off);
    DisabledNow(d.registers, reg / 4, off);
    ZeroSafe(d', reg);
  }

  lemma ZeroSafe(d: Device, reg: Offset)
    requires Ordinary(reg) && AllSafe(d.log) && !Enabled(d.registers, reg / 4)
    ensures AllSafe(StoreTo(d, reg, 0).log)
  {
    OrdinaryTarget(d, reg);
    StoreSafe(d, reg, 0);
  }

  lemma DisabledNow(m: Flat, n: int, off: bv32)
    requires off & ENABLE == 0
    ensures !Enabled(m[n - 7 := off], n)
  {
  }

  lemma ExecSafe(d: Device, c: Call)
    requires AllSafe(d.log) && Ordinary(Where(c))
    ensures AllSafe(Exec(d, c).device.log)
  {
    var reg := Where(c);
    SurfOffsets(reg);
    ReadSafe(d, reg);
    var Reply(d1, was) := Read32(d, reg);
    OrdinaryTarget(d, reg);
    OrdinaryTarget(d1, reg);
    if c.Write? {
      WriteSafe(d, reg, c.val);
    } else if c.Modify? {
      WriteSafe(d1, reg, Modified(was, c.clear, c.on));
    }
  }

  /** In every run of calls at ordinary offsets, no store of zero reaches the surface register of a
      plane that is enabled at that moment. */
  lemma {:induction false} RunSafe(d: Device, calls: seq<Call>)
    requires AllSafe(d.log) && forall c :: c in calls ==> Ordinary(Where(c))
    ensures AllSafe(RunCalls(d, calls).log)
    decreases |calls|
  {
    if calls == [] {
    } else {
      ExecSafe(d, calls[0]);
      RunSafe(Exec(d, calls[0]).device, calls[1..]);
    }
  }

  /** At ordinary offsets every write is safe; and only there, if nothing is known of the device. */
  lemma OrdinaryIsEnough(reg: Offset)
    ensures (forall d: Device, val: bv32 :: AllSafe(d.log) ==> AllSafe(Write32(d, reg, val).log)) <==>
            (Ordinary(reg) || !CanReachSurf(reg))
  {
    if Ordinary(reg) || !CanReachSurf(reg) {
      forall d: Device, val: bv32 | AllSafe(d.log)
        ensures AllSafe(Write32(d, reg, val).log)
      {
        WriteSafe(d, reg, val);
        if Ordinary(reg) {
          OrdinaryTarget(d, reg);
          SurfOffsets(reg);
        }
      }
    } else {
      var d := Victim(reg);
      WriteSafe(d, reg, 0);
    }
  }

  /** Some device and some contents of INDEX take this offset to a surface register. */
  predicate CanReachSurf(reg: Offset)
  {
    Surf(reg / 4) || Surf((reg % 0x1_0000_0000) / 4) || reg / 4 == DATA
  }

  /** A device on which the offset, if it is not an ordinary one, reaches an enabled plane. */
  lemma Victim(reg: Offset) returns (d: Device)
    requires CanReachSurf(reg) && !Ordinary(reg)
    ensures AllSafe(d.log) && !LooksLikePlaneSurf(reg) && Strikes(d, Target(d, reg), 0)
  {
    SurfOffsets(reg);
    var n, length := 0x18067, 0x100;
    if reg / 4 != DATA {
      if Surf(reg / 4) { n, length := reg / 4, 0x100000; }
      else { n := (reg % 0x1_0000_0000) / 4; }
    }
    d := Device(length, 0x6019C, map[n - 7 := ENABLE], []);
  }

  // ---- Blank planes

  /** No plane is enabled while its surface register is zero. */
  ghost predicate NoBlankPlane(m: Flat)
  {
    forall n :: Surf(n) ==> Val(m, n) != 0 || !Enabled(m, n)
  }

  /** The write itself enables a plane whose surface register is zero. */
  predicate EnablesBlank(m: Flat, n: int, v: bv32)
  {
    Surf(n + 7) && v & 0x8000_0000 != 0 && Val(m, n + 7) == 0
  }

  /** A guarded write keeps the invariant exactly when it does not itself enable a blank plane. */
  lemma WriteKeepsPlanes(m: Flat, n: int, v: bv32)
    requires NoBlankPlane(m)
    ensures NoBlankPlane(FlatWrite(m, n, v)) <==> !EnablesBlank(m, n, v)
  {
    var m' := FlatWrite(m, n, v);
    if EnablesBlank(m, n, v) {
      FlatWritten(m, n, v, n);
      FlatWritten(m, n, v, n + 7);
    } else {
      forall k | Surf(k)
        ensures Val(m', k) != 0 || !Enabled(m', k)
      {
        FlatWritten(m, n, v, k);
        FlatWritten(m, n, v, k - 7);
        DisabledBits(Val(m, k - 7));
      }
    }
  }

  /** The call itself enables a blank plane. */
  predicate CallEnablesBlank(m: Flat, c: Call)
  {
    match c
    case Read(_) => false
    case Write(reg, val) => EnablesBlank(m, reg / 4, val)
    case Modify(r, clear, on) => EnablesBlank(m, r / 4, Modified(Val(m, r / 4), clear, on))
  }

  ghost predicate NeverEnablesBlank(m: Flat, calls: seq<Call>)
    decreases |calls|
  {
    calls != [] ==>
      !CallEnablesBlank(m, calls[0]) && NeverEnablesBlank(FlatExec(m, calls[0]).flat, calls[1..])
  }

  /** A call keeps the invariant exactly when it does not itself enable a blank plane. */
  lemma CallKeepsPlanes(m: Flat, c: Call)
    requires NoBlankPlane(m)
    ensures NoBlankPlane(FlatExec(m, c).flat) <==> !CallEnablesBlank(m, c)
  {
    match c
    case Read(_) =>
    case Write(reg, val) => WriteKeepsPlanes(m, reg / 4, val);
    case Modify(r, clear, on) => WriteKeepsPlanes(m, r / 4, Modified(Val(m, r / 4), clear, on));
  }

  lemma {:induction false} FlatRunKeepsPlanes(m: Flat, calls: seq<Call>)
    requires NoBlankPlane(m) && NeverEnablesBlank(m, calls)
    ensures NoBlankPlane(FlatRun(m, calls))
    decreases |calls|
  {
    if calls == [] {
    } else {
      CallKeepsPlanes(m, calls[0]);
      FlatRunKeepsPlanes(FlatExec(m, calls[0]).flat, calls[1..]);
    }
  }

  /** Every run of regular calls keeps all planes from being enabled with a zero surface, unless one of
      the calls itself enables a plane whose surface is zero. */
  lemma RunKeepsPlanes(d: Device, calls: seq<Call>)
    requires forall c :: c in calls ==> Regular(c)
    requires NoBlankPlane(d.registers) && NeverEnablesBlank(d.registers, calls)
    ensures NoBlankPlane(RunCalls(d, calls).registers)
  {
    RunRefines(d, calls);
    FlatRunKeepsPlanes(d.registers, calls);
  }

  lemma {:induction false} FlatPlanesExact(m: Flat, calls: seq<Call>)
    requires NoBlankPlane(m)
    ensures NeverEnablesBlank(m, calls) <==>
            forall i :: 0 <= i <= |calls| ==> NoBlankPlane(FlatRun(m, calls[..i]))
    decreases |calls|
  {
    if calls == [] {
    } else {
      var m', rest := FlatExec(m, calls[0]).flat, calls[1..];
      CallKeepsPlanes(m, calls[0]);
      forall i | 0 < i <= |calls|
        ensures FlatRun(m, calls[..i]) == FlatRun(m', rest[..i - 1])
      {
        assert calls[..i][1..] == rest[..i - 1];
      }
      if NoBlankPlane(m') {
        FlatPlanesExact(m', rest);
        forall j | 0 <= j <= |rest|
          ensures FlatRun(m', rest[..j]) == FlatRun(m, calls[..j + 1])
        {
        }
      } else {
        assert !NoBlankPlane(FlatRun(m, calls[..1]));
      }
    }
  }

  /** The invariant holds after every call of a regular run exactly when no call itself enables a plane
      whose surface is zero. */
  lemma RunPlanesExact(d: Device, calls: seq<Call>)
    requires NoBlankPlane(d.registers) && forall c :: c in calls ==> Regular(c)
    ensures NeverEnablesBlank(d.registers, calls) <==>
            forall i :: 0 <= i <= |calls| ==> NoBlankPlane(RunCalls(d, calls[..i]).registers)
  {
    FlatPlanesExact(d.registers, calls);
    forall i | 0 <= i <= |calls|
      ensures RunCalls(d, calls[..i]).registers == FlatRun(d.registers, calls[..i])
    {
      RunRefines(d, calls[..i]);
    }
  }
}
