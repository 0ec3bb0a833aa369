/** The byte tables of the shared-cache patches and what in them keeps patterns from overlapping. */
module PatchBytes {
  import opened Bytes

  // CreateDisplayForCGXDisplayDevice: the jump to the failed assertion becomes nothing.
  const BYPASS_FIND: seq<byte> := [
    0x75, 0x0A, 0xE8, 0x79, 0x03, 0x0B, 0x00, 0xE9, 0xE6, 0xF6, 0xFF, 0xFF, 0x83, 0xBD, 0xC0,
    0xFE, 0xFF, 0xFF, 0x00, 0x48, 0x8D, 0x05, 0xF2, 0x76, 0x0C, 0x00]
  const BYPASS_LEFT: seq<byte> := [
    0x90, 0x90, 0xE8, 0x79, 0x03, 0x0B, 0x00, 0xE9, 0xE6, 0xF6, 0xFF, 0xFF, 0x83, 0xBD, 0xC0,
    0xFE, 0xFF, 0xFF, 0x00, 0x48, 0x8D, 0x05, 0xF2, 0x76, 0x0C, 0x00]

  // DisplaySurface::GetMTLTexture returns null.
  const TEXTURE_FIND: seq<byte> := [
    0x55, 0x48, 0x89, 0xE5, 0x41, 0x57, 0x41, 0x56, 0x41, 0x55, 0x41, 0x54, 0x53, 0x48, 0x81,
    0xEC, 0x68, 0x01, 0x00, 0x00, 0x49, 0x89, 0xF6, 0x49, 0x89, 0xFF]
  const TEXTURE_LEFT: seq<byte> := [
    0x31, 0xC0, 0xC3, 0x90, 0x90, 0x90, 0x90, 0x90, 0x90, 0x90, 0x90, 0x90, 0x90, 0x90, 0x90,
    0x90, 0x90, 0x90, 0x90, 0x90, 0x90, 0x90, 0x90, 0x90, 0x90, 0x90]

  // MetalDevice::GetMTLCommandQueue returns null.
  const QUEUE_FIND: seq<byte> := [
    0x55, 0x48, 0x89, 0xE5, 0x41, 0x57, 0x41, 0x56, 0x53, 0x48, 0x81, 0xEC, 0x88, 0x00, 0x00,
    0x00, 0x48, 0x8B, 0x05, 0xE9, 0x29, 0x88, 0x3F, 0x48, 0x8B, 0x00]
  const QUEUE_LEFT: seq<byte> := [
    0x31, 0xC0, 0xC3, 0x90, 0x90, 0x90, 0x90, 0x90, 0x90, 0x90, 0x90, 0x90, 0x90, 0x90, 0x90,
    0x90, 0x90, 0x90, 0x90, 0x90, 0x90, 0x90, 0x90, 0x90, 0x90, 0x90]

  // RunFullDisplayPipe returns at once.
  const PIPE_FIND: seq<byte> := [
    0x55, 0x48, 0x89, 0xE5, 0x41, 0x57, 0x41, 0x56, 0x41, 0x55, 0x41, 0x54, 0x53, 0x48, 0x81,
    0xEC, 0x78, 0x05, 0x00, 0x00, 0x48, 0x89, 0xB5, 0x88, 0xFB, 0xFF, 0xFF]
  const PIPE_LEFT: seq<byte> := [
    0xC3, 0x90, 0x90, 0x90, 0x90, 0x90, 0x90, 0x90, 0x90, 0x90, 0x90, 0x90, 0x90, 0x90, 0x90,
    0x90, 0x90, 0x90, 0x90, 0x90, 0x90, 0x90, 0x90, 0x90, 0x90, 0x90, 0x90]

  // Display::Present returns at once.
  const PRESENT_FIND: seq<byte> := [
    0x55, 0x48, 0x89, 0xE5, 0x41, 0x57, 0x41, 0x56, 0x41, 0x55, 0x41, 0x54, 0x53, 0x48, 0x81,
    0xEC, 0xA8, 0x00, 0x00, 0x00, 0x49, 0x89, 0xCE, 0x89, 0xD3, 0x49, 0x89, 0xF4, 0x49, 0x89,
    0xFF]
  const PRESENT_LEFT: seq<byte> := [
    0xC3, 0x90, 0x90, 0x90, 0x90, 0x90, 0x90, 0x90, 0x90, 0x90, 0x90, 0x90, 0x90, 0x90, 0x90,
    0x90, 0x90, 0x90, 0x90, 0x90, 0x90, 0x90, 0x90, 0x90, 0x90, 0x90, 0x90, 0x90, 0x90, 0x90,
    0x90]

  // AccessComplete returns at once.
  const ACCESS_FIND: seq<byte> := [
    0x55, 0x48, 0x89, 0xE5, 0x41, 0x57, 0x41, 0x56, 0x41, 0x55, 0x41, 0x54, 0x53, 0x48, 0x81,
    0xEC, 0xD8, 0x01, 0x00, 0x00, 0x48, 0x8B, 0x05, 0xC1, 0xAA, 0x8F, 0x3F, 0x48, 0x8B, 0x00,
    0x48, 0x89, 0x45, 0xD0]
  const ACCESS_LEFT: seq<byte> := [
    0xC3, 0x90, 0x90, 0x90, 0x90, 0x90, 0x90, 0x90, 0x90, 0x90, 0x90, 0x90, 0x90, 0x90, 0x90,
    0x90, 0x90, 0x90, 0x90, 0x90, 0x90, 0x90, 0x90, 0x90, 0x90, 0x90, 0x90, 0x90, 0x90, 0x90,
    0x90, 0x90, 0x90, 0x90]

  // RunFullDisplayPipe skips a virtual call on null.
  const GUARD_FIND: seq<byte> := [
    0x49, 0x8B, 0xBE, 0x88, 0x08, 0x00, 0x00, 0x48, 0x8B, 0x07, 0xFF, 0x50, 0x28]
  const GUARD_LEFT: seq<byte> := [
    0x49, 0x8B, 0xBE, 0x88, 0x08, 0x00, 0x00, 0x48, 0x85, 0xFF, 0x74, 0x06, 0x90]

  // The SkyLight conditional is bypassed.
  const SKYLIGHT_FIND: seq<byte> := [
    0x0F, 0x84, 0x9E, 0x00, 0x00, 0x00, 0xE8, 0x75, 0x3D, 0xEC, 0xFF, 0x4C, 0x8B, 0x3D, 0x58,
    0xCC, 0x91, 0x3E, 0x4C, 0x89, 0xFF, 0xBE, 0x10, 0x00, 0x00, 0x00, 0xE8, 0x09, 0xEA, 0x1C,
    0x00, 0x84, 0xC0, 0x0F, 0x84, 0x51, 0xFA, 0xFF, 0xFF]
  const SKYLIGHT_LEFT: seq<byte> := [
    0x90, 0x90, 0x90, 0x90, 0x90, 0x90, 0xE8, 0x75, 0x3D, 0xEC, 0xFF, 0x4C, 0x8B, 0x3D, 0x58,
    0xCC, 0x91, 0x3E, 0x4C, 0x89, 0xFF, 0xBE, 0x10, 0x00, 0x00, 0x00, 0xE8, 0x09, 0xEA, 0x1C,
    0x00, 0x84, 0xC0, 0x0F, 0x84, 0x51, 0xFA, 0xFF, 0xFF]

  // AppleGVA asks for "hwgva-id" instead of "board-id" before "hw.model".
  const GVA_FIND: seq<byte> := [
    0x62, 0x6F, 0x61, 0x72, 0x64, 0x2D, 0x69, 0x64, 0x00, 0x68, 0x77, 0x2E, 0x6D, 0x6F, 0x64,
    0x65, 0x6C, 0x00]
  const GVA_LEFT: seq<byte> := [
    0x68, 0x77, 0x67, 0x76, 0x61, 0x2D, 0x69, 0x64, 0x00, 0x68, 0x77, 0x2E, 0x6D, 0x6F, 0x64,
    0x65, 0x6C, 0x00]

  // AppleGVAHEVCEncoder asks for it after "vendor8bit" and "IOService".
  const HEVC_FIND: seq<byte> := [
    0x76, 0x65, 0x6E, 0x64, 0x6F, 0x72, 0x38, 0x62, 0x69, 0x74, 0x00, 0x49, 0x4F, 0x53, 0x65,
    0x72, 0x76, 0x69, 0x63, 0x65, 0x00, 0x62, 0x6F, 0x61, 0x72, 0x64, 0x2D, 0x69, 0x64, 0x00]
  const HEVC_LEFT: seq<byte> := [
    0x76, 0x65, 0x6E, 0x64, 0x6F, 0x72, 0x38, 0x62, 0x69, 0x74, 0x00, 0x49, 0x4F, 0x53, 0x65,
    0x72, 0x76, 0x69, 0x63, 0x65, 0x00, 0x68, 0x77, 0x67, 0x76, 0x61, 0x2D, 0x69, 0x64, 0x00]

  // ---- Anchors

  /** Three bytes that a sequence begins with. */
  datatype Anchor = Anchor(a: byte, b: byte, c: byte)

  // Of patterns.
  const BYPASS_AT := Anchor(0x75, 0x0A, 0xE8)
  const PROLOGUE_AT := Anchor(0x55, 0x48, 0x89)
  const GUARD_AT := Anchor(0x49, 0x8B, 0xBE)
  const SKYLIGHT_AT := Anchor(0x0F, 0x84, 0x9E)
  const BOARD_AT := Anchor(0x62, 0x6F, 0x61)
  const VENDOR_AT := Anchor(0x76, 0x65, 0x6E)

  // Of replacements that do not begin as their patterns do.
  const NOPS_CALL_AT := Anchor(0x90, 0x90, 0xE8)
  const NOPS_AT := Anchor(0x90, 0x90, 0x90)
  const RETURN_NULL_AT := Anchor(0x31, 0xC0, 0xC3)
  const RETURN_AT := Anchor(0xC3, 0x90, 0x90)
  const HWGVA_AT := Anchor(0x68, 0x77, 0x67)

  /** The byte begins an anchor of a pattern. */
  predicate StartsFind(b: byte)
  {
    b == 0x75 || b == 0x55 || b == 0x49 || b == 0x0F || b == 0x62 || b == 0x76
  }

  /** The byte begins another anchor of a replacement. */
  predicate StartsLeft(b: byte)
  {
    b == 0x90 || b == 0x31 || b == 0xC3 || b == 0x68
  }

  predicate Begins(s: seq<byte>, at: Anchor)
  {
    3 <= |s| && s[0] == at.a && s[1] == at.b && s[2] == at.c
  }

  /** As far as `s` goes, the anchor could stand in it at place `i`. */
  predicate CanStart(s: seq<byte>, i: int, at: Anchor)
    requires 0 <= i < |s|
  {
    s[i] == at.a && (i + 1 < |s| ==> s[i + 1] == at.b) && (i + 2 < |s| ==> s[i + 2] == at.c)
  }

  /** No pattern's anchor stands at place `i`, except that the text beginning with VENDOR_AT may have
      BOARD_AT at place 21, where "board-id" begins. */
  predicate NoFindAt(s: seq<byte>, i: int)
  {
    && 1 <= i < |s|
    && !CanStart(s, i, BYPASS_AT) && !CanStart(s, i, PROLOGUE_AT) && !CanStart(s, i, GUARD_AT)
    && !CanStart(s, i, SKYLIGHT_AT) && !CanStart(s, i, VENDOR_AT)
    && ((s[0] == VENDOR_AT.a && i == 21) || !CanStart(s, i, BOARD_AT))
  }

  predicate NoLeftAt(s: seq<byte>, i: int)
  {
    && 1 <= i < |s|
    && !CanStart(s, i, NOPS_CALL_AT) && !CanStart(s, i, NOPS_AT) && !CanStart(s, i, RETURN_NULL_AT)
    && !CanStart(s, i, RETURN_AT) && !CanStart(s, i, HWGVA_AT)
  }

  /** The marked places are all those after the first with a byte that begins an anchor of a pattern, and
      no such anchor stands there. */
  ghost predicate FindMarks(s: seq<byte>, marks: set<int>)
  {
    && (forall i :: 1 <= i < |s| && StartsFind(s[i]) ==> i in marks)
    && (forall i :: i in marks ==> NoFindAt(s, i))
  }

  /** The same for the other anchors of replacements. */
  ghost predicate LeftMarks(s: seq<byte>, marks: set<int>)
  {
    && (forall i :: 1 <= i < |s| && StartsLeft(s[i]) ==> i in marks)
    && (forall i :: i in marks ==> NoLeftAt(s, i))
  }

  // ---- The tables have this form

  lemma BypassFind()
    ensures Begins(BYPASS_FIND, BYPASS_AT) && FindMarks(BYPASS_FIND, {23})
    ensures |BYPASS_FIND| == 26
  {
    assert forall i :: 1 <= i < |BYPASS_FIND| && StartsFind(BYPASS_FIND[i]) ==> i in {23};
    assert forall i :: i in {23} ==> NoFindAt(BYPASS_FIND, i);
  }

  lemma BypassNoLeft()
    ensures LeftMarks(BYPASS_FIND, {})
  {
    assert forall i :: 1 <= i < |BYPASS_FIND| ==> !StartsLeft(BYPASS_FIND[i]);
  }

  lemma BypassLeft()
    ensures Begins(BYPASS_LEFT, NOPS_CALL_AT) && FindMarks(BYPASS_LEFT, {23})
    ensures |BYPASS_LEFT| == 26
  {
    assert forall i :: 1 <= i < |BYPASS_LEFT| && StartsFind(BYPASS_LEFT[i]) ==> i in {23};
    assert forall i :: i in {23} ==> NoFindAt(BYPASS_LEFT, i);
  }

  lemma TextureFind()
    ensures Begins(TEXTURE_FIND, PROLOGUE_AT) && FindMarks(TEXTURE_FIND, {9, 20, 23})
    ensures |TEXTURE_FIND| == 26 && TEXTURE_FIND[16] == 0x68
  {
    forall i | 1 <= i < |TEXTURE_FIND| && StartsFind(TEXTURE_FIND[i])
      ensures i in {9, 20, 23}
    {
    }
    forall i | i in {9, 20, 23}
      ensures NoFindAt(TEXTURE_FIND, i)
    {
    }
  }

  lemma TextureNoLeft()
    ensures LeftMarks(TEXTURE_FIND, {16})
  {
    assert forall i :: 1 <= i < |TEXTURE_FIND| && StartsLeft(TEXTURE_FIND[i]) ==> i in {16};
    assert forall i :: i in {16} ==> NoLeftAt(TEXTURE_FIND, i);
  }

  lemma TextureLeft()
    ensures Begins(TEXTURE_LEFT, RETURN_NULL_AT) && FindMarks(TEXTURE_LEFT, {})
    ensures |TEXTURE_LEFT| == 26
  {
    assert forall i :: 1 <= i < |TEXTURE_LEFT| ==> !StartsFind(TEXTURE_LEFT[i]);
  }

  lemma QueueFind()
    ensures Begins(QUEUE_FIND, PROLOGUE_AT) && FindMarks(QUEUE_FIND, {})
    ensures |QUEUE_FIND| == 26 && QUEUE_FIND[16] == 0x48
  {
    assert forall i :: 1 <= i < |QUEUE_FIND| ==> !StartsFind(QUEUE_FIND[i]);
  }

  lemma QueueNoLeft()
    ensures LeftMarks(QUEUE_FIND, {})
  {
    assert forall i :: 1 <= i < |QUEUE_FIND| ==> !StartsLeft(QUEUE_FIND[i]);
  }

  lemma QueueLeft()
    ensures Begins(QUEUE_LEFT, RETURN_NULL_AT) && FindMarks(QUEUE_LEFT, {})
    ensures |QUEUE_LEFT| == 26
  {
    assert forall i :: 1 <= i < |QUEUE_LEFT| ==> !StartsFind(QUEUE_LEFT[i]);
  }

  lemma PipeFind()
    ensures Begins(PIPE_FIND, PROLOGUE_AT) && FindMarks(PIPE_FIND, {9})
    ensures |PIPE_FIND| == 27 && PIPE_FIND[16] == 0x78
  {
    forall i | 1 <= i < |PIPE_FIND| && StartsFind(PIPE_FIND[i])
      ensures i in {9}
    {
    }
    forall i | i in {9}
      ensures NoFindAt(PIPE_FIND, i)
    {
    }
  }

  lemma PipeNoLeft()
    ensures LeftMarks(PIPE_FIND, {})
  {
    assert forall i :: 1 <= i < |PIPE_FIND| ==> !StartsLeft(PIPE_FIND[i]);
  }

  lemma PipeLeft()
    ensures Begins(PIPE_LEFT, RETURN_AT) && FindMarks(PIPE_LEFT, {})
    ensures |PIPE_LEFT| == 27
  {
    assert forall i :: 1 <= i < |PIPE_LEFT| ==> !StartsFind(PIPE_LEFT[i]);
  }

  lemma PresentFind()
    ensures Begins(PRESENT_FIND, PROLOGUE_AT)
    ensures |PRESENT_FIND| == 31 && PRESENT_FIND[16] == 0xA8
  {
  }

  lemma PresentMarks()
    ensures FindMarks(PRESENT_FIND, {9, 20, 25, 28})
  {
    forall i | 1 <= i < |PRESENT_FIND| && StartsFind(PRESENT_FIND[i])
      ensures i in {9, 20, 25, 28}
    {
    }
    forall i | i in {9, 20, 25, 28}
      ensures NoFindAt(PRESENT_FIND, i)
    {
    }
  }

  lemma PresentNoLeft()
    ensures LeftMarks(PRESENT_FIND, {})
  {
    assert forall i :: 1 <= i < |PRESENT_FIND| ==> !StartsLeft(PRESENT_FIND[i]);
  }

  lemma PresentLeft()
    ensures Begins(PRESENT_LEFT, RETURN_AT) && FindMarks(PRESENT_LEFT, {})
    ensures |PRESENT_LEFT| == 31
  {
    assert forall i :: 1 <= i < |PRESENT_LEFT| ==> !StartsFind(PRESENT_LEFT[i]);
  }

  lemma AccessFind()
    ensures Begins(ACCESS_FIND, PROLOGUE_AT) && FindMarks(ACCESS_FIND, {9})
    ensures |ACCESS_FIND| == 34 && ACCESS_FIND[16] == 0xD8
  {
    forall i | 1 <= i < |ACCESS_FIND| && StartsFind(ACCESS_FIND[i])
      ensures i in {9}
    {
    }
    forall i | i in {9}
      ensures NoFindAt(ACCESS_FIND, i)
    {
    }
  }

  lemma AccessNoLeft()
    ensures LeftMarks(ACCESS_FIND, {})
  {
    assert forall i :: 1 <= i < |ACCESS_FIND| ==> !StartsLeft(ACCESS_FIND[i]);
  }

  lemma AccessLeft()
    ensures Begins(ACCESS_LEFT, RETURN_AT) && FindMarks(ACCESS_LEFT, {})
    ensures |ACCESS_LEFT| == 34
  {
    assert forall i :: 1 <= i < |ACCESS_LEFT| ==> !StartsFind(ACCESS_LEFT[i]);
  }

  lemma GuardFind()
    ensures Begins(GUARD_FIND, GUARD_AT) && FindMarks(GUARD_FIND, {})
    ensures |GUARD_FIND| == 13
  {
    assert forall i :: 1 <= i < |GUARD_FIND| ==> !StartsFind(GUARD_FIND[i]);
  }

  lemma GuardNoLeft()
    ensures LeftMarks(GUARD_FIND, {})
  {
    assert forall i :: 1 <= i < |GUARD_FIND| ==> !StartsLeft(GUARD_FIND[i]);
  }

  lemma GuardLeft()
    ensures Begins(GUARD_LEFT, GUARD_AT) && FindMarks(GUARD_LEFT, {})
    ensures |GUARD_LEFT| == 13
  {
    assert forall i :: 1 <= i < |GUARD_LEFT| ==> !StartsFind(GUARD_LEFT[i]);
  }

  lemma SkylightFind()
    ensures Begins(SKYLIGHT_FIND, SKYLIGHT_AT) && FindMarks(SKYLIGHT_FIND, {7, 33})
    ensures |SKYLIGHT_FIND| == 39
  {
    forall i | 1 <= i < |SKYLIGHT_FIND| && StartsFind(SKYLIGHT_FIND[i])
      ensures i in {7, 33}
    {
    }
    forall i | i in {7, 33}
      ensures NoFindAt(SKYLIGHT_FIND, i)
    {
    }
  }

  lemma SkylightNoLeft()
    ensures LeftMarks(SKYLIGHT_FIND, {})
  {
    assert forall i :: 1 <= i < |SKYLIGHT_FIND| ==> !StartsLeft(SKYLIGHT_FIND[i]);
  }

  lemma SkylightLeft()
    ensures Begins(SKYLIGHT_LEFT, NOPS_AT) && FindMarks(SKYLIGHT_LEFT, {7, 33})
    ensures |SKYLIGHT_LEFT| == 39
  {
    forall i | 1 <= i < |SKYLIGHT_LEFT| && StartsFind(SKYLIGHT_LEFT[i])
      ensures i in {7, 33}
    {
    }
    forall i | i in {7, 33}
      ensures NoFindAt(SKYLIGHT_LEFT, i)
    {
    }
  }

  lemma GvaFind()
    ensures Begins(GVA_FIND, BOARD_AT) && FindMarks(GVA_FIND, {})
    ensures |GVA_FIND| == 18
  {
    assert forall i :: 1 <= i < |GVA_FIND| ==> !StartsFind(GVA_FIND[i]);
  }

  lemma GvaNoLeft()
    ensures LeftMarks(GVA_FIND, {9})
  {
    assert forall i :: 1 <= i < |GVA_FIND| && StartsLeft(GVA_FIND[i]) ==> i in {9};
    assert forall i :: i in {9} ==> NoLeftAt(GVA_FIND, i);
  }

  lemma GvaLeft()
    ensures Begins(GVA_LEFT, HWGVA_AT) && FindMarks(GVA_LEFT, {3})
    ensures |GVA_LEFT| == 18
  {
    assert forall i :: 1 <= i < |GVA_LEFT| && StartsFind(GVA_LEFT[i]) ==> i in {3};
    assert forall i :: i in {3} ==> NoFindAt(GVA_LEFT, i);
  }

  lemma HevcFind()
    ensures Begins(HEVC_FIND, VENDOR_AT) && FindMarks(HEVC_FIND, {7, 11, 16, 21})
    ensures |HEVC_FIND| == 30
  {
    forall i | 1 <= i < |HEVC_FIND| && StartsFind(HEVC_FIND[i])
      ensures i in {7, 11, 16, 21}
    {
    }
    forall i | i in {7, 11, 16, 21}
      ensures NoFindAt(HEVC_FIND, i)
    {
    }
  }

  lemma HevcNoLeft()
    ensures LeftMarks(HEVC_FIND, {})
  {
    assert forall i :: 1 <= i < |HEVC_FIND| ==> !StartsLeft(HEVC_FIND[i]);
  }

  lemma HevcLeft()
    ensures Begins(HEVC_LEFT, VENDOR_AT) && FindMarks(HEVC_LEFT, {7, 11, 16, 24})
    ensures |HEVC_LEFT| == 30
  {
    forall i | 1 <= i < |HEVC_LEFT| && StartsFind(HEVC_LEFT[i])
      ensures i in {7, 11, 16, 24}
    {
    }
    forall i | i in {7, 11, 16, 24}
      ensures NoFindAt(HEVC_LEFT, i)
    {
    }
  }

  /** Replacements that begin as their patterns do differ from them further on. */
  lemma KeptAnchors()
    ensures |GUARD_FIND| == |GUARD_LEFT| == 13 && GUARD_LEFT[8] != GUARD_FIND[8]
    ensures |HEVC_FIND| == |HEVC_LEFT| == 30 && HEVC_LEFT[21] != HEVC_FIND[21]
  {
  }

  /** The two text patches write the same where "board-id" of one is that of the other, and leave
      everything else as it is. */
  lemma TextLefts()
    ensures forall j :: 9 <= j < 18 ==> GVA_LEFT[j] == GVA_FIND[j]
    ensures forall j :: 0 <= j < 21 ==> HEVC_LEFT[j] == HEVC_FIND[j]
  {
  }

  lemma TextLeftsShared()
    ensures HEVC_LEFT[21..] == GVA_LEFT[..9]
  {
  }

  // ---- What the replacements change

  const NOP: byte := 0x90

  /** The assertion jump is overwritten by two no-ops. */
  lemma BypassChange()
    ensures |BYPASS_LEFT| == |BYPASS_FIND|
    ensures forall j :: 0 <= j < 2 ==> BYPASS_LEFT[j] == NOP
    ensures forall j :: 2 <= j < |BYPASS_FIND| ==> BYPASS_LEFT[j] == BYPASS_FIND[j]
  {
  }

  /** The conditional jump in SkyLight is overwritten by six. */
  lemma SkylightChange()
    ensures |SKYLIGHT_LEFT| == |SKYLIGHT_FIND|
    ensures forall j :: 0 <= j < 6 ==> SKYLIGHT_LEFT[j] == NOP
    ensures forall j :: 6 <= j < |SKYLIGHT_FIND| ==> SKYLIGHT_LEFT[j] == SKYLIGHT_FIND[j]
  {
  }

  /** The call through a pointer that may be null becomes a test and a short jump over the rest. */
  lemma GuardChange()
    ensures GUARD_LEFT == GUARD_FIND[..8] + [0x85, 0xFF, 0x74, 0x06, NOP]
  {
  }

  /** The code begins with these bytes, and only no-ops follow. */
  ghost predicate StubOf(s: seq<byte>, code: seq<byte>)
  {
    |code| <= |s| && s[..|code|] == code && forall i :: |code| <= i < |s| ==> s[i] == NOP
  }

  /** Functions that are to give null clear the result and return. */
  lemma NullStubs()
    ensures StubOf(TEXTURE_LEFT, [0x31, 0xC0, 0xC3]) && StubOf(QUEUE_LEFT, [0x31, 0xC0, 0xC3])
  {
  }

  /** Functions that are to be skipped return at once. */
  lemma PipeStub()
    ensures StubOf(PIPE_LEFT, [0xC3])
  {
  }

  lemma PresentStub()
    ensures StubOf(PRESENT_LEFT, [0xC3])
  {
  }

  lemma AccessStub()
    ensures StubOf(ACCESS_LEFT, [0xC3])
  {
  }
}
