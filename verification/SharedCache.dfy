/** The patches that the page hook applies to every page of the shared cache, the lists of them that boot
    arguments select, and what they do to a page. */
module SharedCache {
  import opened Bytes
  import opened PagePatching
  import opened PatchLists
  import opened PatchBytes

  /** A patch without masks. */
  function Unmasked(find: seq<byte>, replace: seq<byte>): Patch
  {
    Patch(find, Everything, replace, Everything)
  }

  const ASSERT_BYPASS := Unmasked(BYPASS_FIND, BYPASS_LEFT)
  const NULL_TEXTURE := Unmasked(TEXTURE_FIND, TEXTURE_LEFT)
  const NULL_QUEUE := Unmasked(QUEUE_FIND, QUEUE_LEFT)
  const SKIP_PIPE := Unmasked(PIPE_FIND, PIPE_LEFT)
  const SKIP_PRESENT := Unmasked(PRESENT_FIND, PRESENT_LEFT)
  const SKIP_ACCESS := Unmasked(ACCESS_FIND, ACCESS_LEFT)
  const PIPE_GUARD := Unmasked(GUARD_FIND, GUARD_LEFT)
  const SKYLIGHT_BYPASS := Unmasked(SKYLIGHT_FIND, SKYLIGHT_LEFT)
  const GVA_BOARD_ID := Unmasked(GVA_FIND, GVA_LEFT)
  const HEVC_BOARD_ID := Unmasked(HEVC_FIND, HEVC_LEFT)

  // ---- Selection

  /** Applied on every system. */
  const BOARD_IDS := [GVA_BOARD_ID, HEVC_BOARD_ID]

  datatype Option<T> = None | Some(value: T)

  /** The boot arguments that the choice depends on. `stage` is the number given with
      ngreenFullMTLStage, if it was given. */
  datatype BootArgs = BootArgs(noMetal: bool, fullMTLTest: bool, stage: Option<int>, skylBypass: bool)

  /** The legacy Metal stage: the test flag stands for stage 1, and a given number is clamped to 0..3. */
  method GetLegacyFullMTLStage(args: BootArgs) returns (fullMTLStage: int)
    ensures fullMTLStage == Stage(args)
    ensures args.stage == None ==> fullMTLStage == if args.fullMTLTest then 1 else 0
    ensures args.stage.Some? && 0 <= args.stage.value <= 3 ==> fullMTLStage == args.stage.value
    ensures args.stage.Some? && args.stage.value < 0 ==> fullMTLStage == 0
    ensures args.stage.Some? && args.stage.value > 3 ==> fullMTLStage == 3
  {
    fullMTLStage := 0;
    if args.fullMTLTest { fullMTLStage := 1; }
    if args.stage.Some? {
      fullMTLStage := args.stage.value;
      if fullMTLStage < 0 { fullMTLStage := 0; }
      if fullMTLStage > 3 { fullMTLStage := 3; }
    }
  }

  function Stage(args: BootArgs): (n: int)
    ensures 0 <= n <= 3
    ensures args.stage.Some? && 0 <= args.stage.value <= 3 ==> n == args.stage.value
  {
    match args.stage
    case None => if args.fullMTLTest then 1 else 0
    case Some(n) => if n < 0 then 0 else if n > 3 then 3 else n
  }

  /** The CoreDisplay list, applied from Ventura on. */
  function Selected(args: BootArgs): seq<Patch>
  {
    if args.noMetal then [ASSERT_BYPASS, SKIP_PIPE, SKIP_PRESENT, NULL_TEXTURE, SKIP_ACCESS]
    else if Stage(args) == 1 then [ASSERT_BYPASS, SKIP_ACCESS]
    else if Stage(args) == 2 then [ASSERT_BYPASS, SKIP_ACCESS, NULL_TEXTURE, NULL_QUEUE]
    else if Stage(args) == 3 && args.skylBypass then
      [ASSERT_BYPASS, NULL_TEXTURE, NULL_QUEUE, PIPE_GUARD, SKYLIGHT_BYPASS]
    else [ASSERT_BYPASS, NULL_TEXTURE, NULL_QUEUE, PIPE_GUARD]
  }

  /** Everything that the hook applies, in its order. */
  function HookList(ventura: bool, args: BootArgs): seq<Patch>
  {
    BOARD_IDS + if ventura then Selected(args) else []
  }

  // ---- Why the patches are compatible

  predicate Differ(x: seq<byte>, y: seq<byte>, d: int, j: int)
  {
    0 <= j < |y| && 0 <= d + j < |x| && x[d + j] != y[j]
  }

  /** Laid `d` places behind `x`, `y` differs from it in some common place. */
  ghost predicate Apart(x: seq<byte>, y: seq<byte>, d: int)
  {
    exists j :: Differ(x, y, d, j)
  }

  /** Two anchored sequences are apart where neither has the other's anchor. */
  lemma AnchoredApart(x: seq<byte>, y: seq<byte>, ax: Anchor, ay: Anchor, d: int)
    requires Begins(x, ax) && Begins(y, ay) && -|y| < d < |x|
    requires d > 0 ==> !CanStart(x, d, ay)
    requires d < 0 ==> !CanStart(y, -d, ax)
    requires d == 0 ==> ax != ay
    ensures Apart(x, y, d)
  {
    if d > 0 {
      assert Differ(x, y, d, 0) || Differ(x, y, d, 1) || Differ(x, y, d, 2);
    } else if d < 0 {
      assert Differ(x, y, d, -d) || Differ(x, y, d, -d + 1) || Differ(x, y, d, -d + 2);
    } else {
      assert Differ(x, y, 0, 0) || Differ(x, y, 0, 1) || Differ(x, y, 0, 2);
    }
  }

  /** The anchor cannot stand in `s` behind its first place. */
  ghost predicate Free(s: seq<byte>, at: Anchor)
  {
    forall i :: 1 <= i < |s| ==> !CanStart(s, i, at)
  }

  predicate CodeAnchor(at: Anchor)
  {
    at == BYPASS_AT || at == PROLOGUE_AT || at == GUARD_AT || at == SKYLIGHT_AT
  }

  /** The anchors of patterns. */
  predicate FindAnchor(at: Anchor)
  {
    CodeAnchor(at) || at == BOARD_AT || at == VENDOR_AT
  }

  /** The anchors of replacements that are not anchors of patterns. */
  predicate LeftAnchor(at: Anchor)
  {
    at == NOPS_CALL_AT || at == NOPS_AT || at == RETURN_NULL_AT || at == RETURN_AT || at == HWGVA_AT
  }

  /** A patch with its anchors, and a byte that tells it from others with the same anchor. */
  datatype Row = Row(patch: Patch, findAt: Anchor, leftAt: Anchor, tag: byte)

  predicate IsPlain(p: Patch)
  {
    p == Unmasked(p.find, p.replace) && 0 < |p.find| == |p.replace|
  }

  /** The replacement begins as the pattern does, but differs from it further on. */
  ghost predicate KeepsAnchor(e: Row)
  {
    && (e.findAt == GUARD_AT || e.findAt == VENDOR_AT) && e.leftAt == e.findAt
    && Apart(e.patch.replace, e.patch.find, 0)
  }

  /** The pattern is free of all anchors but its own and, in the text that ends with "board-id", that of
      the text which begins with it; what is left is free of all anchors of patterns. */
  ghost predicate Shaped(e: Row)
  {
    && IsPlain(e.patch)
    && FindAnchor(e.findAt) && Begins(e.patch.find, e.findAt) && Begins(e.patch.replace, e.leftAt)
    && (forall at :: FindAnchor(at) && !(e.findAt == VENDOR_AT && at == BOARD_AT) ==> Free(e.patch.find, at))
    && (forall at :: LeftAnchor(at) ==> Free(e.patch.find, at))
    && (forall at :: FindAnchor(at) ==> Free(e.patch.replace, at))
    && (LeftAnchor(e.leftAt) || KeepsAnchor(e))
    && (e.findAt == PROLOGUE_AT ==> 16 < |e.patch.find| && e.patch.find[16] == e.tag)
  }

  /** Rows may share the anchor of function prologues, with different tags, and no other; the two texts
      with "board-id" are not distinct in this sense. */
  predicate Distinct(e: Row, f: Row)
  {
    && (e.findAt == f.findAt ==> e.findAt == PROLOGUE_AT && e.tag != f.tag)
    && !(e.findAt == VENDOR_AT && f.findAt == BOARD_AT)
    && !(e.findAt == BOARD_AT && f.findAt == VENDOR_AT)
  }

  lemma PlainClash(p: Patch, q: Patch, d: int)
    requires IsPlain(p) && IsPlain(q)
    ensures Apart(p.find, q.find, d) ==> Clash(p, q, d)
    ensures Apart(p.replace, q.find, d) ==> Purge(p, q, d)
  {
    if Apart(p.find, q.find, d) {
      var j :| Differ(p.find, q.find, d, j);
      assert Exclusive(p, q, d, j);
    }
    if Apart(p.replace, q.find, d) {
      var j :| Differ(p.replace, q.find, d, j);
      assert Expelled(p, q, d, j);
    }
  }

  lemma ShapedPurge(e: Row, f: Row, d: int)
    requires Shaped(e) && Shaped(f) && (e == f || e.findAt != f.findAt || e.findAt == PROLOGUE_AT)
    requires Overlap(e.patch, f.patch, d)
    ensures Purge(e.patch, f.patch, d)
  {
    if d != 0 || e.leftAt != f.findAt {
      AnchoredApart(e.patch.replace, f.patch.find, e.leftAt, f.findAt, d);
    }
    PlainClash(e.patch, f.patch, d);
  }

  lemma ShapedCompatible(e: Row, f: Row)
    requires Shaped(e) && Shaped(f) && (e == f || Distinct(e, f))
    ensures Compatible(e.patch, f.patch)
  {
    var p, q := e.patch, f.patch;
    forall d | Overlap(p, q, d) && (p != q || d != 0)
      ensures Clash(p, q, d)
    {
      if d == 0 && e.findAt == f.findAt {
        assert Differ(p.find, q.find, 0, 16);
      } else {
        AnchoredApart(p.find, q.find, e.findAt, f.findAt, d);
      }
      PlainClash(p, q, d);
    }
    forall d | Overlap(p, q, d)
      ensures Purge(p, q, d)
    {
      ShapedPurge(e, f, d);
    }
  }

  /** Shaped rows, any two of which are distinct. */
  ghost predicate Table(rows: set<Row>)
  {
    && (forall e :: e in rows ==> Shaped(e))
    && (forall e, f :: e in rows && f in rows ==> e == f || Distinct(e, f))
  }

  ghost function Patches(rows: set<Row>): set<Patch>
  {
    set e | e in rows :: e.patch
  }

  lemma TableExtended(rows: set<Row>, e: Row)
    requires Table(rows) && Shaped(e) && forall f :: f in rows ==> Distinct(e, f)
    ensures Table(rows + {e})
  {
  }

  /** Two tables that differ in one row, the patches of which are compatible, make one family. */
  lemma TablesFamily(rows: set<Row>, x: Row, y: Row)
    requires Table(rows + {x}) && Table(rows + {y}) && WellFormed(x.patch) && WellFormed(y.patch)
    requires Compatible(x.patch, y.patch) && Compatible(y.patch, x.patch)
    ensures Family(Patches(rows + {x, y}))
  {
    forall e, f | e in rows + {x, y} && f in rows + {x, y}
      ensures WellFormed(e.patch) && WellFormed(f.patch) && Compatible(e.patch, f.patch)
    {
      if e in rows + {x} && f in rows + {x} {
        ShapedCompatible(e, f);
      } else if e in rows + {y} && f in rows + {y} {
        ShapedCompatible(e, f);
      }
    }
  }

  // ---- The ten patches

  ghost const BYPASS_ROW := Row(ASSERT_BYPASS, BYPASS_AT, NOPS_CALL_AT, 0)
  ghost const TEXTURE_ROW := Row(NULL_TEXTURE, PROLOGUE_AT, RETURN_NULL_AT, 0x68)
  ghost const QUEUE_ROW := Row(NULL_QUEUE, PROLOGUE_AT, RETURN_NULL_AT, 0x48)
  ghost const PIPE_ROW := Row(SKIP_PIPE, PROLOGUE_AT, RETURN_AT, 0x78)
  ghost const PRESENT_ROW := Row(SKIP_PRESENT, PROLOGUE_AT, RETURN_AT, 0xA8)
  ghost const ACCESS_ROW := Row(SKIP_ACCESS, PROLOGUE_AT, RETURN_AT, 0xD8)
  ghost const GUARD_ROW := Row(PIPE_GUARD, GUARD_AT, GUARD_AT, 0)
  ghost const SKYLIGHT_ROW := Row(SKYLIGHT_BYPASS, SKYLIGHT_AT, NOPS_AT, 0)
  ghost const GVA_ROW := Row(GVA_BOARD_ID, BOARD_AT, HWGVA_AT, 0)
  ghost const HEVC_ROW := Row(HEVC_BOARD_ID, VENDOR_AT, VENDOR_AT, 0)

  lemma RowShaped(e: Row, marks: set<int>, others: set<int>, leftMarks: set<int>)
    requires IsPlain(e.patch) && FindMarks(e.patch.find, marks) && LeftMarks(e.patch.find, others)
    requires FindMarks(e.patch.replace, leftMarks) && (e.patch.replace[0] == VENDOR_AT.a ==> 21 !in leftMarks)
    requires FindAnchor(e.findAt) && Begins(e.patch.find, e.findAt) && Begins(e.patch.replace, e.leftAt)
    requires LeftAnchor(e.leftAt) || KeepsAnchor(e)
    requires e.findAt == PROLOGUE_AT ==> 16 < |e.patch.find| && e.patch.find[16] == e.tag
    ensures Shaped(e)
  {
  }

  lemma BypassShaped()
    ensures Shaped(BYPASS_ROW)
  {
    BypassFind(); BypassNoLeft(); BypassLeft();
    RowShaped(BYPASS_ROW, {23}, {}, {23});
  }

  lemma TextureShaped()
    ensures Shaped(TEXTURE_ROW)
  {
    TextureFind(); TextureNoLeft(); TextureLeft();
    RowShaped(TEXTURE_ROW, {9, 20, 23}, {16}, {});
  }

  lemma QueueShaped()
    ensures Shaped(QUEUE_ROW)
  {
    QueueFind(); QueueNoLeft(); QueueLeft();
    RowShaped(QUEUE_ROW, {}, {}, {});
  }

  lemma PipeShaped()
    ensures Shaped(PIPE_ROW)
  {
    PipeFind(); PipeNoLeft(); PipeLeft();
    RowShaped(PIPE_ROW, {9}, {}, {});
  }

  lemma PresentShaped()
    ensures Shaped(PRESENT_ROW)
  {
    PresentFind(); PresentMarks(); PresentNoLeft(); PresentLeft();
    RowShaped(PRESENT_ROW, {9, 20, 25, 28}, {}, {});
  }

  lemma AccessShaped()
    ensures Shaped(ACCESS_ROW)
  {
    AccessFind(); AccessNoLeft(); AccessLeft();
    RowShaped(ACCESS_ROW, {9}, {}, {});
  }

  lemma GuardShaped()
    ensures Shaped(GUARD_ROW)
  {
    GuardFind(); GuardNoLeft(); GuardLeft();
    KeptAnchors();
    assert Differ(GUARD_LEFT, GUARD_FIND, 0, 8);
    RowShaped(GUARD_ROW, {}, {}, {});
  }

  lemma SkylightShaped()
    ensures Shaped(SKYLIGHT_ROW)
  {
    SkylightFind(); SkylightNoLeft(); SkylightLeft();
    RowShaped(SKYLIGHT_ROW, {7, 33}, {}, {7, 33});
  }

  lemma GvaShaped()
    ensures Shaped(GVA_ROW)
  {
    GvaFind(); GvaNoLeft(); GvaLeft();
    RowShaped(GVA_ROW, {}, {9}, {3});
  }

  lemma HevcShaped()
    ensures Shaped(HEVC_ROW)
  {
    HevcFind(); HevcNoLeft(); HevcLeft();
    KeptAnchors();
    assert Differ(HEVC_LEFT, HEVC_FIND, 0, 21);
    RowShaped(HEVC_ROW, {7, 11, 16, 21}, {}, {7, 11, 16, 24});
  }

  // ---- The two board-id patches

  /** Laid over the end of the longer text, the shorter agrees with it in what is written. */
  lemma BoardIdsAgree()
    ensures WellFormed(GVA_BOARD_ID) && WellFormed(HEVC_BOARD_ID)
    ensures Agree(HEVC_BOARD_ID, GVA_BOARD_ID, 21) && Agree(GVA_BOARD_ID, HEVC_BOARD_ID, -21)
  {
    GvaFind(); GvaLeft();
    HevcFind(); HevcLeft();
    TextLefts();
    TextLeftsShared();
    assert forall j :: 0 <= j < 9 ==> HEVC_LEFT[21..][j] == HEVC_LEFT[21 + j] && GVA_LEFT[..9][j] == GVA_LEFT[j];
    forall j | 0 <= j < 18
      ensures AgreeAt(HEVC_BOARD_ID, GVA_BOARD_ID, 21, j)
    {
    }
    forall j | 0 <= j < 30
      ensures AgreeAt(GVA_BOARD_ID, HEVC_BOARD_ID, -21, j)
    {
      if j >= 21 { assert HEVC_LEFT[21..][j - 21] == HEVC_LEFT[j]; }
    }
  }

  /** The shorter text can stand in the longer only at place 21. */
  lemma BoardOnlyAtEnd()
    ensures |HEVC_FIND| == 30 && forall i :: 1 <= i < 30 && i != 21 ==> !CanStart(HEVC_FIND, i, BOARD_AT)
  {
    HevcFind();
  }

  lemma TextsCompatible(gva: Row, hevc: Row)
    requires Shaped(gva) && Shaped(hevc) && gva.findAt == BOARD_AT && hevc.findAt == VENDOR_AT
    requires |gva.patch.find| == 18 && |hevc.patch.find| == 30
    requires forall i :: 1 <= i < 30 && i != 21 ==> !CanStart(hevc.patch.find, i, BOARD_AT)
    requires Agree(hevc.patch, gva.patch, 21) && Agree(gva.patch, hevc.patch, -21)
    ensures Compatible(gva.patch, hevc.patch) && Compatible(hevc.patch, gva.patch)
  {
    var p, q := gva.patch, hevc.patch;
    forall d | Overlap(p, q, d)
      ensures Purge(p, q, d) && (d != -21 ==> Clash(p, q, d))
    {
      ShapedPurge(gva, hevc, d);
      if d != -21 { AnchoredApart(p.find, q.find, gva.findAt, hevc.findAt, d); }
      PlainClash(p, q, d);
    }
    forall d | Overlap(q, p, d)
      ensures Purge(q, p, d) && (d != 21 ==> Clash(q, p, d))
    {
      ShapedPurge(hevc, gva, d);
      if d != 21 { AnchoredApart(q.find, p.find, hevc.findAt, gva.findAt, d); }
      PlainClash(q, p, d);
    }
  }

  // ---- All together

  ghost const ALL: set<Patch> := {
    ASSERT_BYPASS, NULL_TEXTURE, NULL_QUEUE, SKIP_PIPE, SKIP_PRESENT,
    SKIP_ACCESS, PIPE_GUARD, SKYLIGHT_BYPASS, GVA_BOARD_ID, HEVC_BOARD_ID
  }

  lemma FirstPrologues() returns (rows: set<Row>)
    ensures Table(rows) && forall e :: e in rows ==> e.findAt == PROLOGUE_AT && e.tag in {0x68, 0x48, 0x78}
    ensures rows == {TEXTURE_ROW, QUEUE_ROW, PIPE_ROW}
  {
    TextureShaped(); QueueShaped(); PipeShaped();
    WithPrologue({}, TEXTURE_ROW);
    WithPrologue({} + {TEXTURE_ROW}, QUEUE_ROW);
    WithPrologue({} + {TEXTURE_ROW} + {QUEUE_ROW}, PIPE_ROW);
    rows := {} + {TEXTURE_ROW} + {QUEUE_ROW} + {PIPE_ROW};
  }

  lemma PrologueTable() returns (rows: set<Row>)
    ensures Table(rows) && forall e :: e in rows ==> e.findAt == PROLOGUE_AT
    ensures rows == {TEXTURE_ROW, QUEUE_ROW, PIPE_ROW, PRESENT_ROW, ACCESS_ROW}
  {
    rows := FirstPrologues();
    PresentShaped(); AccessShaped();
    WithPrologue(rows, PRESENT_ROW);
    WithPrologue(rows + {PRESENT_ROW}, ACCESS_ROW);
    rows := rows + {PRESENT_ROW} + {ACCESS_ROW};
  }

  lemma CodeTable() returns (rows: set<Row>)
    ensures Table(rows) && forall e :: e in rows ==> CodeAnchor(e.findAt)
    ensures {TEXTURE_ROW, QUEUE_ROW, PIPE_ROW, PRESENT_ROW, ACCESS_ROW} <= rows
    ensures {BYPASS_ROW, GUARD_ROW, SKYLIGHT_ROW} <= rows
  {
    var prologues := PrologueTable();
    BypassShaped(); GuardShaped(); SkylightShaped();
    rows := WithOthers(prologues, BYPASS_ROW, GUARD_ROW, SKYLIGHT_ROW);
  }

  /** All ten patches are compatible with one another, so every list of them is. */
  lemma AllCompatible()
    ensures Family(ALL)
  {
    var code := CodeTable();
    TextTable(code);
    TenPatches(code + {GVA_ROW, HEVC_ROW}, BYPASS_ROW, TEXTURE_ROW, QUEUE_ROW, PIPE_ROW, PRESENT_ROW,
               ACCESS_ROW, GUARD_ROW, SKYLIGHT_ROW, GVA_ROW, HEVC_ROW);
  }

  lemma TextTable(code: set<Row>)
    requires Table(code) && forall e :: e in code ==> CodeAnchor(e.findAt)
    ensures Family(Patches(code + {GVA_ROW, HEVC_ROW}))
  {
    GvaShaped();
    HevcShaped();
    GvaFind();
    BoardOnlyAtEnd();
    BoardIdsAgree();
    WithTexts(code, GVA_ROW, HEVC_ROW);
  }

  lemma WithTexts(code: set<Row>, gva: Row, hevc: Row)
    requires Table(code) && forall e :: e in code ==> CodeAnchor(e.findAt)
    requires Shaped(gva) && Shaped(hevc) && gva.findAt == BOARD_AT && hevc.findAt == VENDOR_AT
    requires |gva.patch.find| == 18 && |hevc.patch.find| == 30
    requires forall i :: 1 <= i < 30 && i != 21 ==> !CanStart(hevc.patch.find, i, BOARD_AT)
    requires Agree(hevc.patch, gva.patch, 21) && Agree(gva.patch, hevc.patch, -21)
    ensures Family(Patches(code + {gva, hevc}))
  {
    TableExtended(code, gva);
    TableExtended(code, hevc);
    TextsCompatible(gva, hevc);
    TablesFamily(code, gva, hevc);
  }

  lemma TenPatches(rows: set<Row>, bypass: Row, texture: Row, queue: Row, pipe: Row, present: Row,
                   access: Row, guard: Row, skylight: Row, gva: Row, hevc: Row)
    requires {bypass, texture, queue, pipe, present, access, guard, skylight, gva, hevc} <= rows
    requires Family(Patches(rows))
    ensures Family({bypass.patch, texture.patch, queue.patch, pipe.patch, present.patch,
                    access.patch, guard.patch, skylight.patch, gva.patch, hevc.patch})
  {
    SubFamily({bypass.patch, texture.patch, queue.patch, pipe.patch, present.patch,
               access.patch, guard.patch, skylight.patch, gva.patch, hevc.patch}, Patches(rows));
  }

  lemma WithPrologue(rows: set<Row>, e: Row)
    requires Table(rows) && forall f :: f in rows ==> f.findAt == PROLOGUE_AT && f.tag != e.tag
    requires Shaped(e) && e.findAt == PROLOGUE_AT
    ensures Table(rows + {e})
  {
    TableExtended(rows, e);
  }

  lemma WithOthers(prologues: set<Row>, bypass: Row, guard: Row, skylight: Row)
    returns (rows: set<Row>)
    requires Table(prologues) && forall e :: e in prologues ==> e.findAt == PROLOGUE_AT
    requires Shaped(bypass) && Shaped(guard) && Shaped(skylight)
    requires bypass.findAt == BYPASS_AT && guard.findAt == GUARD_AT && skylight.findAt == SKYLIGHT_AT
    ensures Table(rows) && rows == prologues + {bypass, guard, skylight}
    ensures forall e :: e in rows ==> CodeAnchor(e.findAt)
  {
    TableExtended(prologues, bypass);
    TableExtended(prologues + {bypass}, guard);
    TableExtended(prologues + {bypass} + {guard}, skylight);
    rows := prologues + {bypass} + {guard} + {skylight};
  }

  lemma SubFamily(patches: set<Patch>, more: set<Patch>)
    requires Family(more) && patches <= more
    ensures Family(patches)
  {
  }

  lemma HookCompatible(ventura: bool, args: BootArgs)
    ensures Family(Members(HookList(ventura, args)))
    ensures forall p :: p in HookList(ventura, args) ==> WellFormed(p)
  {
    AllCompatible();
    var list := HookList(ventura, args);
    forall p | p in list
      ensures p in ALL
    {
      assert p in BOARD_IDS || p in Selected(args);
    }
    SubFamily(Members(list), ALL);
    assert forall p :: p in list ==> p in Members(list);
  }

  /** When each patch is in the selected list: the assertion bypass always; the stubs that return null
      unless Metal work is cut off otherwise; the guard in the display pipe only where the pipe is
      not skipped; SkyLight only in stage 3 on request. */
  lemma SelectedWhen(args: BootArgs)
    ensures var chosen, stage := Members(Selected(args)), Stage(args);
      && ASSERT_BYPASS in chosen
      && (SKIP_PIPE in chosen <==> args.noMetal)
      && (SKIP_PRESENT in chosen <==> args.noMetal)
      && (SKIP_ACCESS in chosen <==> args.noMetal || stage == 1 || stage == 2)
      && (NULL_TEXTURE in chosen <==> args.noMetal || stage != 1)
      && (NULL_QUEUE in chosen <==> !args.noMetal && stage != 1)
      && (PIPE_GUARD in chosen <==> !args.noMetal && (stage == 0 || stage == 3))
      && (SKYLIGHT_BYPASS in chosen <==> !args.noMetal && stage == 3 && args.skylBypass)
  {
  }

  /** The CoreDisplay patches are neither of the board-id patches. */
  lemma NotBoardIds()
    ensures {ASSERT_BYPASS, NULL_TEXTURE, NULL_QUEUE, SKIP_PIPE, SKIP_PRESENT, SKIP_ACCESS, PIPE_GUARD, SKYLIGHT_BYPASS}
            !! Members(BOARD_IDS)
  {
  }

  /** When each patch is applied by the hook: the board-id patches on every system, a CoreDisplay patch only
      from Ventura on and then as selected. */
  lemma HookWhen(ventura: bool, args: BootArgs)
    ensures var applied, stage := Members(HookList(ventura, args)), Stage(args);
      && GVA_BOARD_ID in applied
      && HEVC_BOARD_ID in applied
      && (ASSERT_BYPASS in applied <==> ventura)
      && (SKIP_PIPE in applied <==> ventura && args.noMetal)
      && (SKIP_PRESENT in applied <==> ventura && args.noMetal)
      && (SKIP_ACCESS in applied <==> ventura && (args.noMetal || stage == 1 || stage == 2))
      && (NULL_TEXTURE in applied <==> ventura && (args.noMetal || stage != 1))
      && (NULL_QUEUE in applied <==> ventura && !args.noMetal && stage != 1)
      && (PIPE_GUARD in applied <==> ventura && !args.noMetal && (stage == 0 || stage == 3))
      && (SKYLIGHT_BYPASS in applied <==> ventura && !args.noMetal && stage == 3 && args.skylBypass)
  {
    SelectedWhen(args);
    NotBoardIds();
    HookMembers(ventura, args);
  }

  lemma HookMembers(ventura: bool, args: BootArgs)
    ensures Members(HookList(ventura, args)) == Members(BOARD_IDS) + if ventura then Members(Selected(args)) else {}
  {
  }

  // ---- Whole pages

  lemma {:induction false} ApplyBoth(page: seq<byte>, first: seq<Patch>, second: seq<Patch>)
    requires forall p :: p in first + second ==> WellFormed(p)
    ensures forall p :: p in first || p in second ==> WellFormed(p)
    ensures ApplyAll(page, first + second) == ApplyAll(ApplyAll(page, first), second)
    decreases |first|
  {
    assert forall p :: p in first || p in second ==> p in first + second;
    if first == [] {
      assert first + second == second;
    } else {
      assert (first + second)[1..] == first[1..] + second;
      ApplyBoth(Apply(page, first[0]), first[1..], second);
    }
  }

  /** The page as the kernel gets to see it. */
  ghost function Patched(page: seq<byte>, ventura: bool, args: BootArgs): seq<byte>
  {
    HookCompatible(ventura, args);
    ApplyAll(page, HookList(ventura, args))
  }

  /** Whatever the page and the boot arguments, the two lists together rewrite the page simultaneously: all
      matches are replaced as they stood on the page. */
  lemma PatchedRewrites(page: seq<byte>, ventura: bool, args: BootArgs)
    ensures forall p :: p in Members(HookList(ventura, args)) ==> WellFormed(p)
    ensures Rewrites(page, Members(HookList(ventura, args)), Patched(page, ventura, args))
  {
    HookCompatible(ventura, args);
    ListRewrites(page, HookList(ventura, args));
  }

  /** No pattern of the lists is left on the page. */
  lemma PatchedClean(page: seq<byte>, ventura: bool, args: BootArgs, p: Patch, i: int)
    requires p in HookList(ventura, args)
    ensures WellFormed(p) && !Match(Patched(page, ventura, args), p, i)
  {
    HookCompatible(ventura, args);
    NoResidue(page, HookList(ventura, args), p, i);
  }

  /** The patches in any other order, with repetitions even, patch the page in the same way, and patching
      a patched page changes nothing. */
  lemma PatchedAnyOrder(page: seq<byte>, ventura: bool, args: BootArgs, patches: seq<Patch>)
    requires Members(patches) == Members(HookList(ventura, args))
    ensures forall p :: p in patches ==> WellFormed(p)
    ensures ApplyAll(page, patches) == Patched(page, ventura, args)
    ensures Patched(Patched(page, ventura, args), ventura, args) == Patched(page, ventura, args)
  {
    HookCompatible(ventura, args);
    forall p | p in patches
      ensures WellFormed(p)
    {
      assert p in Members(patches);
    }
    OrderIrrelevant(page, HookList(ventura, args), patches);
    AgainUnchanged(page, HookList(ventura, args));
  }

  // ---- Whole pages, in bytes

  /** Bytes to be replaced, and what takes their place. */
  datatype Swap = Swap(find: seq<byte>, left: seq<byte>)

  /** The hook is to make this replacement. */
  predicate Due(s: Swap, ventura: bool, args: BootArgs)
  {
    var stage := Stage(args);
    || s == Swap(GVA_FIND, GVA_LEFT)
    || s == Swap(HEVC_FIND, HEVC_LEFT)
    || (ventura && s == Swap(BYPASS_FIND, BYPASS_LEFT))
    || (ventura && s == Swap(PIPE_FIND, PIPE_LEFT) && args.noMetal)
    || (ventura && s == Swap(PRESENT_FIND, PRESENT_LEFT) && args.noMetal)
    || (ventura && s == Swap(ACCESS_FIND, ACCESS_LEFT) && (args.noMetal || stage == 1 || stage == 2))
    || (ventura && s == Swap(TEXTURE_FIND, TEXTURE_LEFT) && (args.noMetal || stage != 1))
    || (ventura && s == Swap(QUEUE_FIND, QUEUE_LEFT) && !args.noMetal && stage != 1)
    || (ventura && s == Swap(GUARD_FIND, GUARD_LEFT) && !args.noMetal && (stage == 0 || stage == 3))
    || (ventura && s == Swap(SKYLIGHT_FIND, SKYLIGHT_LEFT) && !args.noMetal && stage == 3 && args.skylBypass)
  }

  ghost function Swaps(ventura: bool, args: BootArgs): iset<Swap>
  {
    iset s: Swap | Due(s, ventura, args)
  }

  /** The bytes stand on the page at place `i`. */
  predicate Stands(page: seq<byte>, i: int, bytes: seq<byte>)
  {
    0 <= i && i + |bytes| <= |page| && page[i..i + |bytes|] == bytes
  }

  /** No bytes to be replaced stand on the page around place `k`. */
  ghost predicate Untouched(page: seq<byte>, k: int, swaps: iset<Swap>)
  {
    forall s, i :: s in swaps && Stands(page, i, s.find) ==> !In(k, i, |s.find|)
  }

  /** Wherever bytes to be replaced stood on the page, in `out` their replacement stands; every other byte
      is as it was; and none of the bytes to be replaced stand anywhere. */
  ghost predicate Swapped(page: seq<byte>, out: seq<byte>, swaps: iset<Swap>)
  {
    && |out| == |page|
    && (forall s, i :: s in swaps && Stands(page, i, s.find) ==> Stands(out, i, s.left))
    && (forall k :: 0 <= k < |page| && Untouched(page, k, swaps) ==> out[k] == page[k])
    && (forall s, i :: s in swaps ==> !Stands(out, i, s.find))
  }

  function PatchOf(s: Swap): Patch
  {
    Unmasked(s.find, s.left)
  }

  lemma DueMember(s: Swap, ventura: bool, args: BootArgs)
    ensures Due(s, ventura, args) <==> PatchOf(s) in HookList(ventura, args)
  {
    HookWhen(ventura, args);
  }

  lemma MemberDue(p: Patch, ventura: bool, args: BootArgs)
    requires p in HookList(ventura, args)
    ensures PatchOf(Swap(p.find, p.replace)) == p
  {
  }

  /** A compatible list of patches without masks makes all its replacements. */
  lemma ListSwaps(page: seq<byte>, patches: seq<Patch>, swaps: iset<Swap>)
    requires Family(Members(patches)) && forall p :: p in patches ==> WellFormed(p)
    requires forall s :: s in swaps <==> PatchOf(s) in patches
    requires forall p :: p in patches ==> PatchOf(Swap(p.find, p.replace)) == p
    ensures Swapped(page, ApplyAll(page, patches), swaps)
  {
    var out := ApplyAll(page, patches);
    ListRewrites(page, patches);
    forall s, i | s in swaps
      ensures Stands(page, i, s.find) ==> Stands(out, i, s.left)
      ensures !Stands(out, i, s.find)
    {
      assert PatchOf(s) in Members(patches);
      NoResidue(page, patches, PatchOf(s), i);
      MemberSwapped(page, out, Members(patches), s, i);
    }
    forall k | 0 <= k < |page| && Untouched(page, k, swaps)
      ensures out[k] == page[k]
    {
      forall p, i | p in Members(patches)
        ensures !Touches(page, p, i, k)
      {
        var s := Swap(p.find, p.replace);
        assert s in swaps;
        MatchPlain(page, p, i);
        assert Stands(page, i, s.find) ==> !In(k, i, |s.find|);
      }
    }
  }

  lemma MemberSwapped(page: seq<byte>, out: seq<byte>, patches: set<Patch>, s: Swap, i: int)
    requires (forall p :: p in patches ==> WellFormed(p)) && PatchOf(s) in patches && Rewrites(page, patches, out)
    requires !Match(out, PatchOf(s), i)
    ensures Stands(page, i, s.find) ==> Stands(out, i, s.left)
    ensures !Stands(out, i, s.find)
  {
    var p := PatchOf(s);
    MatchPlain(out, p, i);
    MatchPlain(page, p, i);
    if Stands(page, i, s.find) {
      forall j | 0 <= j < |s.find|
        ensures out[i + j] == s.left[j]
      {
        assert Touches(page, p, i, i + j);
      }
    }
  }

  /** Whatever the page and the boot arguments, the hook makes exactly the replacements that are due. */
  lemma PatchedSwaps(page: seq<byte>, ventura: bool, args: BootArgs)
    ensures Swapped(page, Patched(page, ventura, args), Swaps(ventura, args))
  {
    HookCompatible(ventura, args);
    forall s: Swap
      ensures s in Swaps(ventura, args) <==> PatchOf(s) in HookList(ventura, args)
    {
      DueMember(s, ventura, args);
    }
    forall p | p in HookList(ventura, args)
      ensures PatchOf(Swap(p.find, p.replace)) == p
    {
      MemberDue(p, ventura, args);
    }
    ListSwaps(page, HookList(ventura, args), Swaps(ventura, args));
  }

  /** The end of the page hook, on the buffer: the board-id patches and, from Ventura on, the selected list. */
  method PatchPage(data: array<byte>, ventura: bool, args: BootArgs)
    modifies data
    ensures data[..] == Patched(old(data[..]), ventura, args)
    ensures Swapped(old(data[..]), data[..], Swaps(ventura, args))
  {
    PatchedSwaps(data[..], ventura, args);
    HookCompatible(ventura, args);
    ApplyBoth(data[..], BOARD_IDS, if ventura then Selected(args) else []);
    ApplyAllInPlace(BOARD_IDS, data);
    if ventura {
      ApplyAllInPlace(Selected(args), data);
    }
  }

  /** From Ventura on the assertion jump never survives, whatever the boot arguments. */
  lemma AssertionGone(page: seq<byte>, args: BootArgs, i: int)
    ensures !Stands(Patched(page, true, args), i, BYPASS_FIND)
    ensures Stands(page, i, BYPASS_FIND) ==> Stands(Patched(page, true, args), i, BYPASS_LEFT)
  {
    PatchedSwaps(page, true, args);
    assert Swap(BYPASS_FIND, BYPASS_LEFT) in Swaps(true, args);
  }

  /** Before Ventura a page without the two board-id texts stays as it is. */
  lemma BeforeVentura(page: seq<byte>, args: BootArgs)
    requires forall i :: !Stands(page, i, GVA_FIND) && !Stands(page, i, HEVC_FIND)
    ensures Patched(page, false, args) == page
  {
    PatchedSwaps(page, false, args);
    forall k | 0 <= k < |page|
      ensures Untouched(page, k, Swaps(false, args))
    {
    }
  }
}
