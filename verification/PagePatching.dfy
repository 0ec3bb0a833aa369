/** Find-and-replace patches on a page of bytes, and lists of them. */
module PagePatching {
  import opened Bytes

  datatype Mask = Everything | Bits(bits: seq<bv8>)

  /** A patch: bytes to find and bytes to put there, each under a mask that may be absent. */
  datatype Patch = Patch(find: seq<byte>, findMask: Mask, replace: seq<byte>, replaceMask: Mask)

  /** All parts have the one size, which is not zero. */
  predicate WellFormed(p: Patch)
  {
    && 0 < |p.find| == |p.replace|
    && (p.findMask.Bits? ==> |p.findMask.bits| == |p.find|)
    && (p.replaceMask.Bits? ==> |p.replaceMask.bits| == |p.find|)
  }

  /** The two bytes differ in no bit of the mask. */
  predicate SameUnder(a: bv8, b: bv8, mask: bv8)
    ensures SameUnder(a, b, mask) <==> (a ^ b) & mask == 0
  {
    a & mask == b & mask
  }

  /** The byte `b` with the bits of `r` in it that are under the mask. */
  function MixedUnder(b: bv8, r: bv8, mask: bv8): (mixed: bv8)
    ensures (mixed ^ r) & mask == 0 && (mixed ^ b) & !mask == 0
  {
    (b & !mask) | (r & mask)
  }

  /** The byte `b` is one that the patch looks for in place `j`. */
  predicate Fits(p: Patch, j: int, b: byte)
    requires WellFormed(p) && 0 <= j < |p.find|
  {
    match p.findMask
    case Everything => b == p.find[j]
    case Bits(m) => SameUnder(b as bv8, p.find[j] as bv8, m[j])
  }

  /** What the patch makes of the byte `b` in place `j`. */
  function Mixed(p: Patch, j: int, b: byte): byte
    requires WellFormed(p) && 0 <= j < |p.find|
  {
    match p.replaceMask
    case Everything => p.replace[j]
    case Bits(m) => MixedUnder(b as bv8, p.replace[j] as bv8, m[j]) as int
  }

  /** Place `j` of the pattern, laid at `i`, lies on the page and fits. */
  predicate FitsAt(page: seq<byte>, p: Patch, i: int, j: int)
    requires WellFormed(p)
  {
    0 <= j < |p.find| && 0 <= i + j < |page| && Fits(p, j, page[i + j])
  }

  predicate Match(page: seq<byte>, p: Patch, i: int)
    requires WellFormed(p)
  {
    0 <= i && i + |p.find| <= |page| && forall j :: 0 <= j < |p.find| ==> FitsAt(page, p, i, j)
  }

  /** What a match without a mask is, in bytes: the page has the pattern there. */
  lemma MatchPlain(page: seq<byte>, p: Patch, i: int)
    requires WellFormed(p) && p.findMask.Everything?
    ensures Match(page, p, i) <==> 0 <= i && i + |p.find| <= |page| && page[i..i + |p.find|] == p.find
  {
    if 0 <= i && i + |p.find| <= |page| {
      var found := page[i..i + |p.find|];
      if Match(page, p, i) {
        forall j | 0 <= j < |found|
          ensures found[j] == p.find[j]
        {
          assert FitsAt(page, p, i, j);
        }
      } else {
        var j :| 0 <= j < |p.find| && !FitsAt(page, p, i, j);
        assert found[j] != p.find[j];
      }
    }
  }

  /** What a match under a mask is: page and pattern are the same in all places under the mask. */
  lemma MatchMasked(page: seq<byte>, p: Patch, i: int)
    requires WellFormed(p) && p.findMask.Bits?
    ensures Match(page, p, i) <==>
            && 0 <= i && i + |p.find| <= |page|
            && forall j :: 0 <= j < |p.find| ==> SameUnder(page[i + j] as bv8, p.find[j] as bv8, p.findMask.bits[j])
  {
    if 0 <= i && i + |p.find| <= |page| {
      forall j | 0 <= j < |p.find|
        ensures FitsAt(page, p, i, j) <==> SameUnder(page[i + j] as bv8, p.find[j] as bv8, p.findMask.bits[j])
      {
      }
    }
  }

  /** The place `k` lies in the `size` bytes from `i` on. */
  predicate In(k: int, i: int, size: int)
  {
    i <= k < i + size
  }

  function ReplacedAt(page: seq<byte>, p: Patch, i: int): (r: seq<byte>)
    requires WellFormed(p) && Match(page, p, i)
    ensures |r| == |page|
  {
    seq(|page|, k requires 0 <= k < |page| => if In(k, i, |p.find|) then Mixed(p, k - i, page[k]) else page[k])
  }

  lemma ReplacedBytes(page: seq<byte>, p: Patch, i: int)
    requires WellFormed(p) && Match(page, p, i)
    ensures forall k :: 0 <= k < |page| ==>
              ReplacedAt(page, p, i)[k] == if In(k, i, |p.find|) then Mixed(p, k - i, page[k]) else page[k]
  {
  }

  /** The scan from place `i` on: a match is replaced and the search goes on behind it. */
  function Scan(page: seq<byte>, p: Patch, i: nat): (r: seq<byte>)
    requires WellFormed(p)
    ensures |r| == |page|
    decreases |page| - i
  {
    if i + |p.find| > |page| then page
    else if Match(page, p, i) then Scan(ReplacedAt(page, p, i), p, i + |p.find|)
    else Scan(page, p, i + 1)
  }

  lemma ScanMatch(page: seq<byte>, p: Patch, i: nat)
    requires WellFormed(p) && Match(page, p, i)
    ensures Scan(page, p, i) == Scan(ReplacedAt(page, p, i), p, i + |p.find|)
  {
  }

  lemma ScanNoMatch(page: seq<byte>, p: Patch, i: nat)
    requires WellFormed(p) && i + |p.find| <= |page| && !Match(page, p, i)
    ensures Scan(page, p, i) == Scan(page, p, i + 1)
  {
  }

  function Apply(page: seq<byte>, p: Patch): (r: seq<byte>)
    requires WellFormed(p)
    ensures |r| == |page|
  {
    Scan(page, p, 0)
  }

  function ApplyAll(page: seq<byte>, patches: seq<Patch>): (r: seq<byte>)
    requires forall p :: p in patches ==> WellFormed(p)
    ensures |r| == |page|
    decreases |patches|
  {
    if patches == [] then page else ApplyAll(Apply(page, patches[0]), patches[1..])
  }

  // ---- In place

  /** Whether the pattern stands in the buffer at place `i`. */
  method FindAt(data: array<byte>, p: Patch, i: nat) returns (found: bool)
    requires WellFormed(p) && i + |p.find| <= data.Length
    ensures found == Match(data[..], p, i)
  {
    found := true;
    var j := 0;
    while j < |p.find| && found
      invariant 0 <= j <= |p.find|
      invariant found ==> forall l :: 0 <= l < j ==> FitsAt(data[..], p, i, l)
      invariant !found ==> exists l :: 0 <= l < |p.find| && !FitsAt(data[..], p, i, l)
    {
      found := Fits(p, j, data[i + j]);
      assert found == FitsAt(data[..], p, i, j);
      j := j + 1;
    }
  }

  method ReplaceAt(data: array<byte>, p: Patch, i: nat)
    requires WellFormed(p) && Match(data[..], p, i)
    modifies data
    ensures data[..] == ReplacedAt(old(data[..]), p, i)
  {
    var j := 0;
    while j < |p.find|
      invariant 0 <= j <= |p.find|
      invariant forall k :: 0 <= k < data.Length ==>
                              data[k] == if In(k, i, j) then Mixed(p, k - i, old(data[k])) else old(data[k])
    {
      data[i + j] := Mixed(p, j, data[i + j]);
      j := j + 1;
    }
    ReplacedBytes(old(data[..]), p, i);
  }

  /** One step of the scan. */
  method ScanOnce(data: array<byte>, p: Patch, i: nat) returns (next: nat)
    requires WellFormed(p) && i + |p.find| <= data.Length
    modifies data
    ensures i < next && Scan(data[..], p, next) == Scan(old(data[..]), p, i)
  {
    var found := FindAt(data, p, i);
    if found {
      ScanMatch(data[..], p, i);
      ReplaceAt(data, p, i);
      next := i + |p.find|;
    } else {
      ScanNoMatch(data[..], p, i);
      next := i + 1;
    }
  }

  /** The foreign find-and-replace, as far as it is known: every match from left to right. */
  method FindAndReplace(data: array<byte>, p: Patch)
    requires WellFormed(p)
    modifies data
    ensures data[..] == Apply(old(data[..]), p)
  {
    var i := 0;
    while i + |p.find| <= data.Length
      invariant Scan(data[..], p, i) == Apply(old(data[..]), p)
      decreases data.Length - i
    {
      i := ScanOnce(data, p, i);
    }
  }

  method ApplyAllInPlace(patches: seq<Patch>, data: array<byte>)
    requires forall p :: p in patches ==> WellFormed(p)
    modifies data
    ensures data[..] == ApplyAll(old(data[..]), patches)
  {
    var i := 0;
    while i < |patches|
      invariant 0 <= i <= |patches|
      invariant ApplyAll(data[..], patches[i..]) == ApplyAll(old(data[..]), patches)
    {
      assert patches[i..][0] == patches[i] && patches[i..][1..] == patches[i + 1..];
      FindAndReplace(data, patches[i]);
      i := i + 1;
    }
  }
}
