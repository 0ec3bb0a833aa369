/** What chains of read-modify-write calls do to register values. */
module Workarounds {
  import opened WordBits
  import opened Registers
  import opened FlatRegisters

  // ---- intel_de_rmw

  datatype Pair = Pair(clear: bv32, on: bv32)

  /** The single clear/set pair that a chain of pairs amounts to. */
  function Fused(chain: seq<Pair>): Pair
    decreases |chain|
  {
    if chain == [] then Pair(0, 0) else Then(chain[0], Fused(chain[1..]))
  }

  function Then(p: Pair, q: Pair): Pair
  {
    Pair(p.clear | q.clear, (p.on & !q.clear) | q.on)
  }

  function RmwCalls(r: Offset32, chain: seq<Pair>): (calls: seq<Call>)
    ensures forall c :: c in calls ==> c.Modify? && c.r == r
    decreases |chain|
  {
    if chain == [] then []
    else [Modify(r, chain[0].clear, chain[0].on)] + RmwCalls(r, chain[1..])
  }

  function Folded(x: bv32, chain: seq<Pair>): bv32
    decreases |chain|
  {
    if chain == [] then x else Folded(Modified(x, chain[0].clear, chain[0].on), chain[1..])
  }

  lemma FusePairs(x: bv32, p: Pair, q: Pair, f: Pair)
    requires f == Then(p, q)
    ensures Modified(Modified(x, p.clear, p.on), q.clear, q.on) == Modified(x, f.clear, f.on)
  {
    FuseBits(x, p.clear, p.on, q.clear, q.on);
  }

  lemma {:induction false} FoldedIsFused(x: bv32, chain: seq<Pair>)
    ensures Folded(x, chain) == Modified(x, Fused(chain).clear, Fused(chain).on)
    decreases |chain|
  {
    if chain == [] {
      FuseBits(x, 0, 0, 0, 0);
    } else {
      var p := chain[0];
      var y := Modified(x, p.clear, p.on);
      FoldedIsFused(y, chain[1..]);
      FusePairs(x, p, Fused(chain[1..]), Fused(chain));
    }
  }

  /** One read-modify-write at an ordinary offset that is not a plane's surface register: it returns what it
      finds, clears and then sets the bits it is given, and changes no other register. */
  lemma RmwMeans(d: Device, r: Offset32, clear: bv32, on: bv32, n: int)
    requires r % 4 == 0 && r != 0x38 && r != 0x3C && !(0x60000 <= r <= 0xBFFFF && r % 0x1000 == 0x19C)
    ensures Exec(d, Modify(r, clear, on)).value == Reg(d, r / 4)
    ensures Reg(Exec(d, Modify(r, clear, on)).device, n) == if n == r / 4 then (Reg(d, n) & !clear) | on else Reg(d, n)
  {
    SurfOffsets(r);
    UnguardedRmw(d, r, clear, on, n);
  }

  lemma UnguardedRmw(d: Device, r: Offset32, clear: bv32, on: bv32, n: int)
    requires Regular(Read(r)) && !Surf(r / 4)
    ensures Exec(d, Modify(r, clear, on)).value == Reg(d, r / 4)
    ensures Reg(Exec(d, Modify(r, clear, on)).device, n) == if n == r / 4 then (Reg(d, n) & !clear) | on else Reg(d, n)
  {
    ExecRefines(d, Modify(r, clear, on));
    FlatRmw(d.registers, r, clear, on, n);
    ReplyRmw(d, Exec(d, Modify(r, clear, on)), FlatExec(d.registers, Modify(r, clear, on)), r / 4, clear, on, n);
  }

  lemma ReplyRmw(d: Device, e: Reply, f: FlatReply, k: int, clear: bv32, on: bv32, n: int)
    requires e.device.registers == f.flat && e.value == f.value == Val(d.registers, k)
    requires Val(f.flat, n) == if n == k then (Val(d.registers, n) & !clear) | on else Val(d.registers, n)
    ensures e.value == Reg(d, k) && Reg(e.device, n) == if n == k then (Reg(d, n) & !clear) | on else Reg(d, n)
  {
  }

  lemma FlatRmw(m: Flat, r: Offset32, clear: bv32, on: bv32, n: int)
    requires !Surf(r / 4)
    ensures FlatExec(m, Modify(r, clear, on)).value == Val(m, r / 4)
    ensures Val(FlatExec(m, Modify(r, clear, on)).flat, n)
            == if n == r / 4 then (Val(m, n) & !clear) | on else Val(m, n)
  {
    RmwExec(m, r, Pair(clear, on));
  }

  lemma RmwExec(m: Flat, r: Offset32, p: Pair)
    requires !Surf(r / 4)
    ensures FlatExec(m, Modify(r, p.clear, p.on))
            == FlatReply(m[r / 4 := Modified(Val(m, r / 4), p.clear, p.on)], Val(m, r / 4))
  {
  }

  lemma RmwFirst(m: Flat, r: Offset32, chain: seq<Pair>)
    requires !Surf(r / 4) && chain != []
    ensures var m' := m[r / 4 := Modified(Val(m, r / 4), chain[0].clear, chain[0].on)];
      && FlatRun(m, RmwCalls(r, chain)) == FlatRun(m', RmwCalls(r, chain[1..]))
      && FlatResults(m, RmwCalls(r, chain)) == [Val(m, r / 4)] + FlatResults(m', RmwCalls(r, chain[1..]))
  {
    RmwExec(m, r, chain[0]);
    assert RmwCalls(r, chain)[1..] == RmwCalls(r, chain[1..]);
  }

  lemma {:induction false} RmwFolds(m: Flat, r: Offset32, chain: seq<Pair>, n: int)
    requires !Surf(r / 4)
    ensures Val(FlatRun(m, RmwCalls(r, chain)), n) == if n == r / 4 then Folded(Val(m, n), chain) else Val(m, n)
    decreases |chain|
  {
    if chain == [] {
    } else {
      RmwFirst(m, r, chain);
      RmwFolds(m[r / 4 := Modified(Val(m, r / 4), chain[0].clear, chain[0].on)], r, chain[1..], n);
    }
  }

  /** The flat map after the chain and after the one fused call. */
  lemma RmwFused(m: Flat, r: Offset32, chain: seq<Pair>, n: int)
    requires !Surf(r / 4)
    ensures Val(FlatRun(m, RmwCalls(r, chain)), n)
            == Val(FlatExec(m, Modify(r, Fused(chain).clear, Fused(chain).on)).flat, n)
  {
    RmwFolds(m, r, chain, n);
    FoldedIsFused(Val(m, r / 4), chain);
    RmwExec(m, r, Fused(chain));
  }

  /** A chain of read-modify-writes on one unguarded register leaves every register as a single call
      with the fused pair does, and each call returns the value that the calls before it left. */
  lemma RmwFusion(d: Device, r: Offset32, chain: seq<Pair>)
    requires Regular(Read(r)) && !Surf(r / 4)
    ensures forall n :: Reg(RunCalls(d, RmwCalls(r, chain)), n)
                        == Reg(Exec(d, Modify(r, Fused(chain).clear, Fused(chain).on)).device, n)
    ensures |Results(d, RmwCalls(r, chain))| == |chain|
    ensures forall i :: 0 <= i < |chain| ==>
              Results(d, RmwCalls(r, chain))[i] == Reg(RunCalls(d, RmwCalls(r, chain[..i])), r / 4)
  {
    var m, fused := d.registers, Fused(chain);
    RunRefines(d, RmwCalls(r, chain));
    ExecRefines(d, Modify(r, fused.clear, fused.on));
    forall n
      ensures Reg(RunCalls(d, RmwCalls(r, chain)), n) == Reg(Exec(d, Modify(r, fused.clear, fused.on)).device, n)
    {
      RmwFused(m, r, chain, n);
    }
    RmwResults(m, r, chain);
    forall i | 0 <= i < |chain|
      ensures Val(FlatRun(m, RmwCalls(r, chain[..i])), r / 4) == Reg(RunCalls(d, RmwCalls(r, chain[..i])), r / 4)
    {
      RunRefines(d, RmwCalls(r, chain[..i]));
    }
  }

  lemma {:induction false} RmwResults(m: Flat, r: Offset32, chain: seq<Pair>)
    requires !Surf(r / 4)
    ensures |FlatResults(m, RmwCalls(r, chain))| == |chain|
    ensures forall i :: 0 <= i < |chain| ==>
              FlatResults(m, RmwCalls(r, chain))[i] == Val(FlatRun(m, RmwCalls(r, chain[..i])), r / 4)
    decreases |chain|
  {
    if chain == [] {
    } else {
      RmwFirst(m, r, chain);
      var rest := chain[1..];
      var m' := m[r / 4 := Modified(Val(m, r / 4), chain[0].clear, chain[0].on)];
      RmwResults(m', r, rest);
      forall i | 0 < i < |chain|
        ensures FlatRun(m, RmwCalls(r, chain[..i])) == FlatRun(m', RmwCalls(r, rest[..i - 1]))
      {
        RmwPrefix(m, r, chain, i);
      }
    }
  }

  lemma RmwPrefix(m: Flat, r: Offset32, chain: seq<Pair>, i: int)
    requires !Surf(r / 4) && 0 < i < |chain|
    ensures var m' := m[r / 4 := Modified(Val(m, r / 4), chain[0].clear, chain[0].on)];
      FlatRun(m, RmwCalls(r, chain[..i])) == FlatRun(m', RmwCalls(r, chain[1..][..i - 1]))
  {
    RmwFirst(m, r, chain[..i]);
    assert chain[..i][1..] == chain[1..][..i - 1];
  }

  // ---- Calls that only turn bits on

  /** Every bit that the call clears it also turns on. */
  predicate Additive(c: Call)
  {
    c.Modify? && c.clear & !c.on == 0
  }

  function Share(c: Call, n: int): bv32
  {
    if c.Modify? && c.r / 4 == n then c.on else 0
  }

  /** Everything that the calls turn on in register `n`. */
  function Union(calls: seq<Call>, n: int): bv32
    decreases |calls|
  {
    if calls == [] then 0 else Share(calls[0], n) | Union(calls[1..], n)
  }

  lemma OneAddition(m: Flat, c: Call, n: int)
    requires Additive(c) && !Surf(c.r / 4)
    ensures Val(FlatExec(m, c).flat, n) == Val(m, n) | Share(c, n)
  {
    RmwExec(m, c.r, Pair(c.clear, c.on));
    AddedAt(m, c.r / 4, c.clear, c.on, n, Share(c, n));
  }

  lemma AddedAt(m: Flat, k: int, clear: bv32, on: bv32, n: int, share: bv32)
    requires clear & !on == 0 && share == if k == n then on else 0
    ensures Val(m[k := Modified(Val(m, k), clear, on)], n) == Val(m, n) | share
  {
    if k == n {
      AdditiveBits(Val(m, k), clear, on);
    } else {
      OrZero(Val(m, n));
    }
  }

  lemma {:induction false} FlatClosedForm(m: Flat, calls: seq<Call>, n: int)
    requires forall c :: c in calls ==> Additive(c) && !Surf(c.r / 4)
    ensures Val(FlatRun(m, calls), n) == Val(m, n) | Union(calls, n)
    decreases |calls|
  {
    if calls == [] {
      OrZero(Val(m, n));
    } else {
      var c := calls[0];
      assert c in calls;
      OneAddition(m, c, n);
      FlatClosedForm(FlatExec(m, c).flat, calls[1..], n);
      OrAssociates(Val(m, n), Share(c, n), Union(calls[1..], n));
    }
  }

  /** Any run of additive calls on unguarded registers leaves every register with its old bits and the
      union of the bits that the calls turn on in it. */
  lemma ClosedForm(d: Device, calls: seq<Call>, n: int)
    requires forall c :: c in calls ==> Additive(c) && Regular(c) && !Surf(c.r / 4)
    ensures Reg(RunCalls(d, calls), n) == Reg(d, n) | Union(calls, n)
  {
    RunRefines(d, calls);
    FlatClosedForm(d.registers, calls, n);
  }

  lemma {:induction false} UnionCovers(calls: seq<Call>, n: int, c: Call)
    requires c in calls
    ensures Within(Share(c, n), Union(calls, n))
    decreases |calls|
  {
    if calls[0] != c { UnionCovers(calls[1..], n, c); }
    WithinEither(Share(c, n), Share(calls[0], n), Union(calls[1..], n));
  }

  lemma {:induction false} UnionLeast(calls: seq<Call>, n: int, u: bv32)
    requires forall c :: c in calls ==> Within(Share(c, n), u)
    ensures Within(Union(calls, n), u)
    decreases |calls|
  {
    if calls == [] {
      WithinEither(0, 0, u);
    } else {
      UnionLeast(calls[1..], n, u);
      assert Within(Share(calls[0], n), u);
      WithinEither(Share(calls[0], n), Union(calls[1..], n), u);
    }
  }

  lemma SameUnion(calls: seq<Call>, calls': seq<Call>, n: int)
    requires forall c :: c in calls <==> c in calls'
    ensures Union(calls, n) == Union(calls', n)
  {
    var u, u' := Union(calls, n), Union(calls', n);
    forall c | c in calls { UnionCovers(calls', n, c); }
    forall c | c in calls' { UnionCovers(calls, n, c); }
    UnionLeast(calls, n, u');
    UnionLeast(calls', n, u);
    WithinEither(u, u', 0);
  }

  /** Neither order nor repetition matters: runs with the same members leave the same registers. */
  lemma OrderAndRepetition(d: Device, calls: seq<Call>, calls': seq<Call>, n: int)
    requires forall c :: c in calls ==> Additive(c) && Regular(c) && !Surf(c.r / 4)
    requires forall c :: c in calls <==> c in calls'
    ensures Reg(RunCalls(d, calls), n) == Reg(RunCalls(d, calls'), n)
  {
    ClosedForm(d, calls, n);
    ClosedForm(d, calls', n);
    SameUnion(calls, calls', n);
  }

  // ---- The workaround calls

  /** What a modification makes of a register that reads as `x`. */
  function ModifiedBy(x: bv32, c: Call): bv32
    requires c.Modify?
  {
    Modified(x, c.clear, c.on)
  }

  /** wa_add: for a masked register the set bits lose those below their own enable bits; the read mask
      is turned on in any case. */
  function WaAdd(r: Offset32, clear: bv32, bits: bv32, readMask: bv32, masked: bool): Call
  {
    Modify(r, clear, WaOn(bits, readMask, masked))
  }

  /** The value that wa_add leaves in a register that reads as `x`, for all arguments. */
  lemma WaAddMeans(r: Offset32, clear: bv32, bits: bv32, readMask: bv32, x: bv32)
    ensures var c := WaAdd(r, clear, bits, readMask, false);
      c.Modify? && c.r == r && ModifiedBy(x, c) == ((x & !clear) | bits) | readMask
  {
    OrAssociates(x & !clear, bits, readMask);
  }

  lemma WaAddMaskedMeans(r: Offset32, clear: bv32, bits: bv32, readMask: bv32, x: bv32)
    ensures var c := WaAdd(r, clear, bits, readMask, true);
      c.Modify? && c.r == r && ModifiedBy(x, c) == ((x & !clear) | (bits & !(bits >> 16))) | readMask
  {
    OrAssociates(x & !clear, bits & !(bits >> 16), readMask);
  }

  function WaMaskedEn(r: Offset32, val: bv32): Call
  {
    WaAdd(r, 0, MaskedField(val, val), val, true)
  }

  function WaMaskedFieldSet(r: Offset32, mask: bv32, val: bv32): Call
  {
    WaAdd(r, 0, MaskedField(mask, val), mask, true)
  }

  function WaWriteClrSet(r: Offset32, clear: bv32, bits: bv32): Call
  {
    WaAdd(r, clear, bits, clear | bits, false)
  }

  function WaWrite(r: Offset32, bits: bv32): Call
  {
    WaWriteClrSet(r, 0xFFFF_FFFF, bits)
  }

  function WaWriteOr(r: Offset32, bits: bv32): Call
  {
    WaWriteClrSet(r, bits, bits)
  }

  function WaWriteClr(r: Offset32, clear: bv32): Call
  {
    WaWriteClrSet(r, clear, 0)
  }

  /** With 16-bit arguments, the masked forms turn on the enable bits, all of the mask and the field. */
  lemma MaskedFieldAdds(r: Offset32, mask: bv32, val: bv32)
    requires mask <= 0xFFFF && val <= 0xFFFF
    ensures Additive(WaMaskedFieldSet(r, mask, val))
    ensures WaMaskedFieldSet(r, mask, val).on == MaskAndField(mask, val)
  {
    MaskedFormBits(mask, val);
    SameTwice(WaOn(MaskedField(mask, val), mask, true), 0);
  }

  lemma MaskedEnAdds(r: Offset32, bits: bv32)
    requires bits <= 0xFFFF
    ensures Additive(WaMaskedEn(r, bits)) && WaMaskedEn(r, bits).on == (bits << 16) | bits
  {
    MaskedFieldAdds(r, bits, bits);
    SameTwice(bits << 16, bits);
  }

  /** The clearing forms clear nothing: whatever they are to clear they turn on. */
  lemma ClearingFormsAdd(r: Offset32, clear: bv32, bits: bv32)
    ensures Additive(WaWriteClrSet(r, clear, bits)) && WaWriteClrSet(r, clear, bits).on == clear | bits
  {
    ClearingFormBits(clear, bits);
  }

  /** What wa_write_clr_set's name promises (clear, then set) it keeps exactly when nothing is cleared
      that is not also set. */
  lemma ClearsAsNamed(r: Offset32, clear: bv32, bits: bv32, x: bv32)
    ensures ModifiedBy(x, WaWriteClrSet(r, clear, bits)) == (x & !clear) | bits <==> clear & !bits == 0
  {
    ClearingFormBits(clear, bits);
    ClearingBits(x, clear, bits);
  }

  /** wa_write leaves all ones whatever it was given. */
  lemma WritesAllOnes(r: Offset32, bits: bv32, x: bv32)
    ensures ModifiedBy(x, WaWrite(r, bits)) == 0xFFFF_FFFF
  {
    ClearingFormBits(0xFFFF_FFFF, bits);
    AllCleared(x, bits);
  }

  /** wa_write_or does as named. */
  lemma SetsAsNamed(r: Offset32, bits: bv32, x: bv32)
    ensures ModifiedBy(x, WaWriteOr(r, bits)) == x | bits
  {
    ClearingFormBits(bits, bits);
    SetAgain(x, bits);
  }

  /** wa_write_clr leaves the register as it should only if it has nothing to clear. */
  lemma ClearsOnlyNothing(r: Offset32, clear: bv32, x: bv32)
    ensures ModifiedBy(x, WaWriteClr(r, clear)) == x & !clear <==> clear == 0
  {
    ClearingFormBits(clear, 0);
    OnlyCleared(x, clear);
  }

  // ---- Registers with write-enable bits

  /** What a modification leaves in the low half of a register with write-enable bits, if its halves read
      as `upper` and `low`. */
  function MaskedAfter(low: bv32, upper: bv32, c: Call): bv32
    requires c.Modify?
  {
    MaskedStore(low, ModifiedBy((upper << 16) | low, c))
  }

  lemma EnablesExactly(r: Offset32, low: bv32, upper: bv32, bits: bv32)
    requires low <= 0xFFFF && bits <= 0xFFFF
    ensures MaskedAfter(low, upper, WaMaskedEn(r, bits)) == low | bits
  {
    EnableStored(low, upper, bits);
  }

  /** One call of wa_masked_en: the bits to enable, and what the upper half reads as at that time. */
  datatype Enable = Enable(bits: bv32, upper: bv32)

  /** The low half after calls of wa_masked_en one after the other. */
  function EnabledAll(r: Offset32, low: bv32, chain: seq<Enable>): bv32
    decreases |chain|
  {
    if chain == [] then low
    else EnabledAll(r, MaskedAfter(low, chain[0].upper, WaMaskedEn(r, chain[0].bits)), chain[1..])
  }

  function OrAll(chain: seq<Enable>): bv32
    decreases |chain|
  {
    if chain == [] then 0 else chain[0].bits | OrAll(chain[1..])
  }

  lemma EnablesFirst(r: Offset32, low: bv32, chain: seq<Enable>)
    requires low <= 0xFFFF && chain != [] && chain[0].bits <= 0xFFFF
    ensures EnabledAll(r, low, chain) == EnabledAll(r, low | chain[0].bits, chain[1..])
    ensures low | chain[0].bits <= 0xFFFF
  {
    EnablesExactly(r, low, chain[0].upper, chain[0].bits);
    StaysLow(low, chain[0].bits);
  }

  /** Any sequence of wa_masked_en calls sets the requested bits and keeps all others, whatever the
      upper half reads as each time. */
  lemma {:induction false} EnablesUnion(r: Offset32, low: bv32, chain: seq<Enable>)
    requires low <= 0xFFFF
    requires forall e :: e in chain ==> e.bits <= 0xFFFF
    ensures EnabledAll(r, low, chain) == low | OrAll(chain)
    decreases |chain|
  {
    if chain == [] {
      OrZero(low);
    } else {
      assert chain[0] in chain;
      EnablesFirst(r, low, chain);
      EnablesUnion(r, low | chain[0].bits, chain[1..]);
      OrAssociates(low, chain[0].bits, OrAll(chain[1..]));
    }
  }

  /** wa_masked_field_set is meant to install the field under the mask. It does exactly when the field
      has all of the mask's bits on, and those outside the mask only where the register has them
      on already or the upper half reads as zero. */
  lemma FieldAsNamed(r: Offset32, low: bv32, upper: bv32, mask: bv32, field: bv32)
    requires low <= 0xFFFF && upper <= 0xFFFF && mask <= 0xFFFF && field <= 0xFFFF
    ensures MaskedAfter(low, upper, WaMaskedFieldSet(r, mask, field)) == (low & !mask) | (field & mask) <==>
            mask & !field == 0 && (field & !mask) & !low & upper == 0
  {
    FieldStored(low, upper, mask, field, MaskedAfter(low, upper, WaMaskedFieldSet(r, mask, field)));
  }

  // ---- Lists of workaround calls

  /** A workaround call, with the arguments that reach wa_add. */
  datatype Workaround = Masked(r: Offset32, mask: bv32, field: bv32) | Plain(r: Offset32, clear: bv32, bits: bv32)

  function CallOf(w: Workaround): Call
  {
    match w
    case Masked(r, mask, field) => WaMaskedFieldSet(r, mask, field)
    case Plain(r, clear, bits) => WaWriteClrSet(r, clear, bits)
  }

  /** All six forms are of these two kinds. */
  lemma FormsOf(r: Offset32, x: bv32, y: bv32)
    ensures CallOf(Masked(r, x, x)) == WaMaskedEn(r, x) && CallOf(Masked(r, x, y)) == WaMaskedFieldSet(r, x, y)
    ensures CallOf(Plain(r, x, y)) == WaWriteClrSet(r, x, y) && CallOf(Plain(r, 0xFFFF_FFFF, x)) == WaWrite(r, x)
    ensures CallOf(Plain(r, x, x)) == WaWriteOr(r, x) && CallOf(Plain(r, x, 0)) == WaWriteClr(r, x)
  {
  }

  /** The masked forms take 16-bit arguments. */
  predicate Proper(w: Workaround)
  {
    w.Masked? ==> w.mask <= 0xFFFF && w.field <= 0xFFFF
  }

  /** The bits that a workaround turns on: enable bits, mask and field, or what is cleared and what is set. */
  function Contribution(w: Workaround): bv32
  {
    match w
    case Masked(_, mask, field) => MaskAndField(mask, field)
    case Plain(_, clear, bits) => clear | bits
  }

  function Part(w: Workaround, n: int): bv32
  {
    if w.r / 4 == n then Contribution(w) else 0
  }

  lemma PartIsShare(w: Workaround, n: int)
    requires Proper(w)
    ensures Additive(CallOf(w)) && CallOf(w).r == w.r && Share(CallOf(w), n) == Part(w, n)
  {
    OnIsContribution(w);
  }

  lemma OnIsContribution(w: Workaround)
    requires Proper(w)
    ensures Additive(CallOf(w)) && CallOf(w).r == w.r && CallOf(w).on == Contribution(w)
  {
    if w.Masked? { OnIfMasked(w); } else { OnIfPlain(w); }
  }

  lemma OnIfMasked(w: Workaround)
    requires w.Masked? && Proper(w)
    ensures Additive(CallOf(w)) && CallOf(w).on == Contribution(w)
  {
    MaskedFieldAdds(w.r, w.mask, w.field);
  }

  lemma OnIfPlain(w: Workaround)
    requires w.Plain?
    ensures Additive(CallOf(w)) && CallOf(w).on == Contribution(w)
  {
    ClearingFormsAdd(w.r, w.clear, w.bits);
  }

  /** The calls for a list of workarounds. */
  ghost predicate CallsFor(calls: seq<Call>, ws: seq<Workaround>)
  {
    |calls| == |ws| && forall i :: 0 <= i < |ws| ==> calls[i] == CallOf(ws[i])
  }

  /** Everything that the workarounds contribute to register `n`. */
  function Contributions(ws: seq<Workaround>, n: int): bv32
    decreases |ws|
  {
    if ws == [] then 0 else Part(ws[0], n) | Contributions(ws[1..], n)
  }

  lemma {:induction false} SameParts(calls: seq<Call>, ws: seq<Workaround>, n: int)
    requires |calls| == |ws| && forall i :: 0 <= i < |ws| ==> Share(calls[i], n) == Part(ws[i], n)
    ensures Union(calls, n) == Contributions(ws, n)
    decreases |ws|
  {
    if ws == [] {
    } else {
      SameParts(calls[1..], ws[1..], n);
    }
  }

  /** Any list of workaround calls on unguarded registers leaves every register with its old bits and the
      contributions to it. */
  lemma {:induction false} WorkaroundList(d: Device, ws: seq<Workaround>, calls: seq<Call>, n: int)
    requires CallsFor(calls, ws)
    requires forall i :: 0 <= i < |ws| ==> Proper(ws[i]) && Regular(Read(ws[i].r)) && !Surf(ws[i].r / 4)
    ensures Reg(RunCalls(d, calls), n) == Reg(d, n) | Contributions(ws, n)
  {
    forall i | 0 <= i < |ws|
      ensures Additive(calls[i]) && Regular(calls[i]) && !Surf(calls[i].r / 4)
      ensures Share(calls[i], n) == Part(ws[i], n)
    {
      PartIsShare(ws[i], n);
    }
    SameParts(calls, ws, n);
    ClosedForm(d, calls, n);
  }

  /** Two lists with the same workarounds, in whatever order and however often, leave the same registers. */
  lemma WorkaroundOrder(d: Device, ws: seq<Workaround>, calls: seq<Call>, ws': seq<Workaround>, calls': seq<Call>,
                        n: int)
    requires CallsFor(calls, ws) && CallsFor(calls', ws') && forall w :: w in ws <==> w in ws'
    requires forall i :: 0 <= i < |ws| ==> Proper(ws[i]) && Regular(Read(ws[i].r)) && !Surf(ws[i].r / 4)
    ensures Reg(RunCalls(d, calls), n) == Reg(RunCalls(d, calls'), n)
  {
    forall i | 0 <= i < |ws|
      ensures Additive(calls[i]) && Regular(calls[i]) && !Surf(calls[i].r / 4)
    {
      PartIsShare(ws[i], n);
    }
    SameCalls(ws, calls, ws', calls');
    SameCalls(ws', calls', ws, calls);
    OrderAndRepetition(d, calls, calls', n);
  }

  lemma SameCalls(ws: seq<Workaround>, calls: seq<Call>, ws': seq<Workaround>, calls': seq<Call>)
    requires CallsFor(calls, ws) && CallsFor(calls', ws') && forall w :: w in ws ==> w in ws'
    ensures forall c :: c in calls ==> c in calls'
  {
    forall c | c in calls
      ensures c in calls'
    {
      var i :| 0 <= i < |calls| && calls[i] == c;
      assert ws[i] in ws';
      var j :| 0 <= j < |ws'| && ws'[j] == ws[i];
      assert calls'[j] == c;
    }
  }
}
