/** Facts about 32-bit words: the arithmetic of masks behind the register calls. */
module WordBits {

  /** Bit 31 of a plane's control register: the plane is enabled. */
  const ENABLE: bv32 := 0x8000_0000

  lemma DisabledBits(v: bv32)
    ensures (v & !ENABLE) | 0x8000_0000 == v | 0x8000_0000
    ensures (v & !ENABLE) & 0x8000_0000 == 0 && v & !ENABLE == v & 0x7FFF_FFFF
  {
  }

  /** The value that a read-modify-write puts into a register that reads as `was`. */
  function Modified(was: bv32, clear: bv32, on: bv32): bv32
  {
    (was & !clear) | on
  }

  lemma FuseBits(x: bv32, clear: bv32, on: bv32, clear': bv32, on': bv32)
    ensures Modified(Modified(x, clear, on), clear', on')
            == Modified(x, clear | clear', (on & !clear') | on')
    ensures Modified(x, 0, 0) == x
  {
  }

  lemma AdditiveBits(x: bv32, clear: bv32, on: bv32)
    requires clear & !on == 0
    ensures Modified(x, clear, on) == x | on
  {
  }

  lemma OrZero(x: bv32)
    ensures x | 0 == x
  {
  }

  lemma OrAssociates(x: bv32, y: bv32, z: bv32)
    ensures (x | y) | z == x | (y | z)
  {
  }

  lemma ClearNone(x: bv32, flags: bv32)
    ensures Modified(x, 0, flags) == x | flags
  {
  }

  /** `x` has no bit that `y` has not. */
  predicate Within(x: bv32, y: bv32)
  {
    x | y == y
  }

  lemma WithinEither(x: bv32, y: bv32, z: bv32)
    ensures Within(x, x | z)
    ensures Within(x, z) ==> Within(x, y | z)
    ensures Within(x, z) && Within(y, z) ==> Within(x | y, z)
    ensures Within(0, z)
    ensures Within(x, y) && Within(y, x) ==> x == y
  {
    OrAssociates(x, x, z);
    if Within(x, z) { WithinMore(x, y, z); }
    if Within(x, z) && Within(y, z) { OrAssociates(x, y, z); }
    if Within(x, y) && Within(y, x) { OrCommutes(x, y); }
  }

  lemma WithinMore(x: bv32, y: bv32, z: bv32)
    requires x | z == z
    ensures x | (y | z) == y | z
  {
  }

  lemma OrCommutes(x: bv32, y: bv32)
    ensures x | y == y | x
  {
  }

  // ---- Workaround values

  function MaskedField(mask: bv32, value: bv32): bv32
  {
    (mask << 16) | value
  }

  /** The set bits of wa_add; for a masked register, without those below their own enable bits. */
  function WaSet(bits: bv32, masked: bool): bv32
  {
    if masked then bits & !(bits >> 16) else bits
  }

  /** The bits that wa_add turns on: the set bits and all of the read mask. */
  function WaOn(bits: bv32, readMask: bv32, masked: bool): bv32
  {
    WaSet(bits, masked) | readMask
  }

  /** The value as wa_add computes it: clear, set, and the read mask last. */
  function WaValue(was: bv32, clear: bv32, bits: bv32, readMask: bv32, masked: bool): (v: bv32)
    ensures v == Modified(was, clear, WaOn(bits, readMask, masked))
  {
    OrAssociates(was & !clear, WaSet(bits, masked), readMask);
    ((was & !clear) | WaSet(bits, masked)) | readMask
  }

  /** The mask, in both halves, and the field. */
  function MaskAndField(mask: bv32, field: bv32): bv32
  {
    ((mask << 16) | mask) | field
  }

  lemma MaskedFormBits(mask: bv32, val: bv32)
    requires mask <= 0xFFFF && val <= 0xFFFF
    ensures WaOn(MaskedField(mask, val), mask, true) == MaskAndField(mask, val)
  {
    EnableBits(mask, val);
    MaskedHalves(mask, val, mask << 16);
  }

  lemma EnableBits(mask: bv32, val: bv32)
    requires mask <= 0xFFFF && val <= 0xFFFF
    ensures ((mask << 16) | val) >> 16 == mask
    ensures (mask << 16) & mask == 0
  {
  }

  lemma MaskedHalves(mask: bv32, val: bv32, upper: bv32)
    requires upper & mask == 0
    ensures ((upper | val) & !mask) | mask == (upper | mask) | val
  {
  }

  lemma SameTwice(x: bv32, y: bv32)
    ensures (x | y) | y == x | y
    ensures 0 & !x == 0
  {
  }

  lemma ClearingFormBits(clear: bv32, bits: bv32)
    ensures WaOn(bits, clear | bits, false) == clear | bits
    ensures clear & !(clear | bits) == 0
  {
  }

  /** Clearing and then setting, with the cleared bits turned back on, is clearing and then setting
      exactly when nothing is cleared that is not also set. */
  lemma ClearingBits(x: bv32, clear: bv32, bits: bv32)
    ensures Modified(x, clear, clear | bits) == Modified(x, clear, bits) <==> clear & !bits == 0
  {
    if clear & !bits == 0 { ClearedAreSet(x, clear, bits); }
    if (x & !clear) | (clear | bits) == (x & !clear) | bits { NothingCleared(x, clear, bits); }
  }

  lemma ClearedAreSet(x: bv32, clear: bv32, bits: bv32)
    requires clear & !bits == 0
    ensures (x & !clear) | (clear | bits) == (x & !clear) | bits
  {
  }

  lemma NothingCleared(x: bv32, clear: bv32, bits: bv32)
    requires (x & !clear) | (clear | bits) == (x & !clear) | bits
    ensures clear & !bits == 0
  {
  }

  lemma AllCleared(x: bv32, bits: bv32)
    ensures Modified(x, 0xFFFF_FFFF, 0xFFFF_FFFF | bits) == 0xFFFF_FFFF
  {
  }

  lemma OnlyCleared(x: bv32, clear: bv32)
    ensures Modified(x, clear, clear | 0) == x & !clear <==> clear == 0
  {
    if (x & !clear) | (clear | 0) == x & !clear { ClearsNothing(x, clear); }
  }

  lemma ClearsNothing(x: bv32, clear: bv32)
    requires (x & !clear) | (clear | 0) == x & !clear
    ensures clear == 0
  {
  }

  lemma SetAgain(x: bv32, bits: bv32)
    ensures Modified(x, bits, bits | bits) == x | bits
  {
  }

  // ---- Registers with write-enable bits

  /** The low half of a masked register after a write: bit i takes the written value only where bit
      i + 16 of the written word is on. */
  function MaskedStore(low: bv32, written: bv32): bv32
  {
    (low & !(written >> 16)) | (written & (written >> 16))
  }

  lemma EnableStored(low: bv32, upper: bv32, bits: bv32)
    requires low <= 0xFFFF && bits <= 0xFFFF
    ensures MaskedStore(low, Modified((upper << 16) | low, 0, WaOn(MaskedField(bits, bits), bits, true))) == low | bits
  {
  }

  lemma StaysLow(low: bv32, bits: bv32)
    requires low <= 0xFFFF && bits <= 0xFFFF
    ensures low | bits <= 0xFFFF
  {
  }

  lemma FieldStored(low: bv32, upper: bv32, mask: bv32, field: bv32, left: bv32)
    requires low <= 0xFFFF && upper <= 0xFFFF && mask <= 0xFFFF && field <= 0xFFFF
    requires left == MaskedStore(low, Modified((upper << 16) | low, 0, WaOn(MaskedField(mask, field), mask, true)))
    ensures left == (low & !mask) | (field & mask) <==> mask & !field == 0 && (field & !mask) & !low & upper == 0
  {
  }
}
