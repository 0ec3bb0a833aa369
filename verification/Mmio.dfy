/** The driver's register interface, statement by statement, on the device that it drives. */
module Mmio {
  import opened WordBits
  import opened Registers
  import opened FlatRegisters
  import opened PlaneGuard
  import opened Workarounds

  class NGreen {
    /** Whether the registers have been mapped; without a mapping reads give zero and writes nothing. */
    const mapped: bool
    var device: Device

    constructor (mapped: bool, device: Device)
      ensures this.mapped == mapped && this.device == device
    {
      this.mapped, this.device := mapped, device;
    }

    /** The window's two words must be mapped. */
    ghost predicate Valid()
      reads this
    {
      mapped ==> 0x40 <= device.length
    }

    /** A load from the mapping; the word must lie inside it. */
    method LoadWord(word: int) returns (v: bv32)
      requires 0 <= word && 4 * word + 4 <= device.length
      ensures v == Get(device, Cell(device, word))
    {
      v := Get(device, Cell(device, word));
    }

    /** A store to the mapping; the word must lie inside it. */
    method StoreWord(word: int, v: bv32)
      requires 0 <= word && 4 * word + 4 <= device.length
      modifies this
      ensures device == Put(old(device), Cell(old(device), word), v)
    {
      device := Put(device, Cell(device, word), v);
    }

    /** The store of an offset to INDEX, cut to 32 bits. */
    method StoreIndex(reg: Offset)
      requires 4 * INDEX + 4 <= device.length
      modifies this
      ensures device == SetIndex(old(device), reg % 0x1_0000_0000)
    {
      device := SetIndex(device, reg % 0x1_0000_0000);
    }

    method ReadReg32(reg: Offset) returns (v: bv32)
      requires Valid()
      modifies this
      ensures Valid()
      ensures !mapped ==> v == 0 && device == old(device)
      ensures mapped ==> Reply(device, v) == Read32(old(device), reg)
    {
      if !mapped { return 0; }
      if reg + 4 <= device.length {
        v := LoadWord(reg / 4);
      } else {
        StoreIndex(reg);
        v := LoadWord(DATA);
      }
    }

    /** The store that ends writeReg32. */
    method StoreReg(reg: Offset, val: bv32)
      requires Valid() && mapped
      modifies this
      ensures Valid() && device == StoreTo(old(device), reg, val)
    {
      if reg + 4 <= device.length {
        StoreWord(reg / 4, val);
      } else {
        StoreIndex(reg);
        StoreWord(DATA, val);
      }
    }

    /** The guard of writeReg32: the value to store instead of a zero for a surface register, after
        disabling the plane if there is none. */
    method GuardZero(reg: Offset) returns (val: bv32)
      requires Valid() && mapped && LooksLikePlaneSurf(reg)
      modifies this
      ensures Valid() && StoreTo(device, reg, val) == Write32(old(device), reg, 0)
      decreases 1, 0
    {
      SurfOffsets(reg);
      val := 0;
      var ctlReg := reg - 0x1C;
      var planCtl := ReadReg32(ctlReg);
      ghost var d1 := device;
      if planCtl & ENABLE != 0 {
        var currentSurf := ReadReg32(reg);
        ghost var d2 := device;
        if currentSurf != 0 {
          val := currentSurf;
          GuardKeeps(old(device), reg, d1, planCtl, d2, currentSurf);
        } else {
          WriteReg32(ctlReg, planCtl & !ENABLE);
          GuardDisables(old(device), reg, d1, planCtl, d2);
        }
      } else {
        GuardIdle(old(device), reg, d1, planCtl);
      }
    }

    method WriteReg32(reg: Offset, value: bv32)
      requires Valid()
      modifies this
      ensures Valid()
      ensures device == if mapped then Write32(old(device), reg, value) else old(device)
      decreases if LooksLikePlaneSurf(reg) then 1 else 0, 1
    {
      if !mapped { return; }
      var val := value;
      if LooksLikePlaneSurf(reg) && val == 0 {
        val := GuardZero(reg);
      }
      StoreReg(reg, val);
    }

    /** What a call does to the device, if the registers are mapped. */
    ghost function After(d: Device, c: Call): Device
    {
      if mapped then Exec(d, c).device else d
    }

    method IntelDeRmw(reg: Offset32, clear: bv32, bits: bv32) returns (was: bv32)
      requires Valid()
      modifies this
      ensures Valid() && device == After(old(device), Modify(reg, clear, bits))
      ensures was == if mapped then Exec(old(device), Modify(reg, clear, bits)).value else 0
    {
      was := ReadReg32(reg);
      var val := (was & !clear) | bits;
      WriteReg32(reg, val);
    }

    method WhitelistRegExt(reg: Offset32, flags: bv32)
      requires Valid()
      modifies this
      ensures Valid() && device == After(old(device), Modify(reg, 0, flags))
    {
      var was := ReadReg32(reg);
      ClearNone(was, flags);
      was := was | flags;
      WriteReg32(reg, was);
    }

    /** The access flag for whitelisted registers is zero, so the register is rewritten as it reads. */
    method WhitelistReg(reg: Offset32)
      requires Valid()
      modifies this
      ensures Valid() && device == After(old(device), Modify(reg, 0, 0))
    {
      WhitelistRegExt(reg, 0);
    }

    method AddWorkaround(reg: Offset32, clear: bv32, bits: bv32, readMask: bv32, masked: bool)
      requires Valid()
      modifies this
      ensures Valid() && device == After(old(device), WaAdd(reg, clear, bits, readMask, masked))
    {
      var was := ReadReg32(reg);
      WriteReg32(reg, WaValue(was, clear, bits, readMask, masked));
    }

    method MaskedEn(reg: Offset32, val: bv32)
      requires Valid()
      modifies this
      ensures Valid() && device == After(old(device), WaMaskedEn(reg, val))
    {
      AddWorkaround(reg, 0, MaskedField(val, val), val, true);
    }

    method MaskedFieldSet(reg: Offset32, mask: bv32, val: bv32)
      requires Valid()
      modifies this
      ensures Valid() && device == After(old(device), WaMaskedFieldSet(reg, mask, val))
    {
      AddWorkaround(reg, 0, MaskedField(mask, val), mask, true);
    }

    method WriteClrSet(reg: Offset32, clear: bv32, bits: bv32)
      requires Valid()
      modifies this
      ensures Valid() && device == After(old(device), WaWriteClrSet(reg, clear, bits))
    {
      AddWorkaround(reg, clear, bits, clear | bits, false);
    }

    method WriteAll(reg: Offset32, bits: bv32)
      requires Valid()
      modifies this
      ensures Valid() && device == After(old(device), WaWrite(reg, bits))
    {
      WriteClrSet(reg, 0xFFFF_FFFF, bits);
    }

    method WriteOr(reg: Offset32, bits: bv32)
      requires Valid()
      modifies this
      ensures Valid() && device == After(old(device), WaWriteOr(reg, bits))
    {
      WriteClrSet(reg, bits, bits);
    }

    method WriteClr(reg: Offset32, clear: bv32)
      requires Valid()
      modifies this
      ensures Valid() && device == After(old(device), WaWriteClr(reg, clear))
    {
      WriteClrSet(reg, clear, 0);
    }

    /** Any client: calls of the interface one after the other. The device goes through the run of them,
        so at ordinary offsets no enabled plane was ever armed with zero, and at regular ones
        none is left blank unless a call enabled it so. */
    method Perform(calls: seq<Call>) returns (values: seq<bv32>)
      requires Valid()
      modifies this
      ensures Valid()
      ensures !mapped ==> device == old(device)
      ensures mapped ==> device == RunCalls(old(device), calls) && values == Results(old(device), calls)
      ensures AllSafe(old(device.log)) && (forall c :: c in calls ==> Ordinary(Where(c))) ==> AllSafe(device.log)
      ensures && NoBlankPlane(old(device.registers))
              && (forall c :: c in calls ==> Regular(c))
              && NeverEnablesBlank(old(device.registers), calls)
              ==> NoBlankPlane(device.registers)
    {
      values := [];
      var i := 0;
      while i < |calls|
        invariant 0 <= i <= |calls| && Valid()
        invariant !mapped ==> device == old(device)
        invariant mapped ==> RunCalls(device, calls[i..]) == RunCalls(old(device), calls)
        invariant mapped ==> values + Results(device, calls[i..]) == Results(old(device), calls)
      {
        var value := PerformOne(calls[i]);
        assert calls[i..][1..] == calls[i + 1..];
        values := values + [value];
        i := i + 1;
      }
      if AllSafe(old(device.log)) && forall c :: c in calls ==> Ordinary(Where(c)) {
        RunSafe(old(device), calls);
      }
      if NoBlankPlane(old(device.registers)) && (forall c :: c in calls ==> Regular(c)) &&
         NeverEnablesBlank(old(device.registers), calls) {
        RunKeepsPlanes(old(device), calls);
      }
    }

    method PerformOne(c: Call) returns (value: bv32)
      requires Valid()
      modifies this
      ensures Valid() && device == After(old(device), c)
      ensures value == if mapped then Exec(old(device), c).value else 0
    {
      match c
      case Read(reg) => value := ReadReg32(reg);
      case Write(reg, val) =>
        WriteReg32(reg, val);
        value := 0;
      case Modify(r, clear, on) => value := IntelDeRmw(r, clear, on);
    }
  }
}
