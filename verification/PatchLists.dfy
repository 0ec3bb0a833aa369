/** When a list of patches acts as one simultaneous rewriting of the page. */
module PatchLists {
  import opened Bytes
  import opened PagePatching

  // ---- Patterns that cannot meet

  /** No byte fits both place `i` of `p` and place `j` of `q`. */
  ghost predicate FitsNeither(p: Patch, i: int, q: Patch, j: int)
    requires WellFormed(p) && WellFormed(q) && 0 <= i < |p.find| && 0 <= j < |q.find|
  {
    forall b: byte :: Fits(p, i, b) ==> !Fits(q, j, b)
  }

  /** Nothing that `p` leaves in place `i` fits place `j` of `q`. */
  ghost predicate LeavesNone(p: Patch, i: int, q: Patch, j: int)
    requires WellFormed(p) && WellFormed(q) && 0 <= i < |p.find| && 0 <= j < |q.find|
  {
    forall b: byte :: Fits(p, i, b) ==> !Fits(q, j, Mixed(p, i, b))
  }

  /** Laid `d` places behind `p`, place `j` of `q` falls on `p`, and no byte fits both there. */
  ghost predicate Exclusive(p: Patch, q: Patch, d: int, j: int)
    requires WellFormed(p) && WellFormed(q)
  {
    && 0 <= d + j < |p.find| && 0 <= j < |q.find|
    && FitsNeither(p, d + j, q, j)
  }

  /** Laid `d` places behind `p`, place `j` of `q` falls on `p`, and nothing that `p` leaves there fits it. */
  ghost predicate Expelled(p: Patch, q: Patch, d: int, j: int)
    requires WellFormed(p) && WellFormed(q)
  {
    && 0 <= d + j < |p.find| && 0 <= j < |q.find|
    && LeavesNone(p, d + j, q, j)
  }

  /** Laid `d` places behind `p`, `q` cannot match where `p` does. */
  ghost predicate Clash(p: Patch, q: Patch, d: int)
    requires WellFormed(p) && WellFormed(q)
  {
    exists j :: Exclusive(p, q, d, j)
  }

  /** Laid `d` places behind `p`, `q` cannot match what `p` leaves. */
  ghost predicate Purge(p: Patch, q: Patch, d: int)
    requires WellFormed(p) && WellFormed(q)
  {
    exists j :: Expelled(p, q, d, j)
  }

  ghost predicate Overlap(p: Patch, q: Patch, d: int)
  {
    -|q.find| < d < |p.find|
  }

  /** Patterns laid at `s` and at `i` overlap. */
  ghost predicate Meet(p: Patch, s: int, q: Patch, i: int)
  {
    Overlap(p, q, i - s)
  }

  /** Where a byte fits place `i` of `p` and place `j` of `q`, the two make the same of it. */
  ghost predicate SameWrite(p: Patch, i: int, q: Patch, j: int)
    requires WellFormed(p) && WellFormed(q) && 0 <= i < |p.find| && 0 <= j < |q.find|
  {
    forall b: byte :: Fits(p, i, b) && Fits(q, j, b) ==> Mixed(p, i, b) == Mixed(q, j, b)
  }

  /** In place `j`, `q` leaves what it finds. */
  ghost predicate Inert(q: Patch, j: int)
    requires WellFormed(q) && 0 <= j < |q.find|
  {
    forall b: byte :: Fits(q, j, b) ==> Mixed(q, j, b) == b
  }

  ghost predicate AgreeAt(p: Patch, q: Patch, d: int, j: int)
    requires WellFormed(p) && WellFormed(q) && 0 <= j < |q.find|
  {
    if 0 <= d + j < |p.find| then SameWrite(p, d + j, q, j) else Inert(q, j)
  }

  /** Laid `d` places behind `p`, `q` writes what `p` writes where they overlap, and nothing new elsewhere. */
  ghost predicate Agree(p: Patch, q: Patch, d: int)
    requires WellFormed(p) && WellFormed(q)
  {
    forall j :: 0 <= j < |q.find| ==> AgreeAt(p, q, d, j)
  }

  /** Matches of the two patches overlap only where they agree, or where a patch meets itself in the same
      place, and what one leaves is never part of a match of the other. */
  ghost predicate Compatible(p: Patch, q: Patch)
    requires WellFormed(p) && WellFormed(q)
  {
    && (forall d :: Overlap(p, q, d) && (p != q || d != 0) ==> Clash(p, q, d) || (p != q && Agree(p, q, d)))
    && (forall d :: Overlap(p, q, d) ==> Purge(p, q, d))
  }

  ghost predicate Family(patches: set<Patch>)
  {
    && (forall p :: p in patches ==> WellFormed(p))
    && (forall p, q :: p in patches && q in patches ==> Compatible(p, q))
  }

  // ---- Simultaneous rewriting

  /** Some match of `p` on the page, at `i`, covers the place `k`. */
  predicate Touches(page: seq<byte>, p: Patch, i: int, k: int)
    requires WellFormed(p)
  {
    Match(page, p, i) && In(k, i, |p.find|)
  }

  /** `out` is the page with every match of every patch, as they stand on the page, replaced. */
  ghost predicate Rewrites(page: seq<byte>, patches: set<Patch>, out: seq<byte>)
    requires forall p :: p in patches ==> WellFormed(p)
  {
    && |out| == |page|
    && (forall p, i, k :: p in patches && 0 <= k < |page| && Touches(page, p, i, k) ==>
                            out[k] == Mixed(p, k - i, page[k]))
    && (forall k :: 0 <= k < |page| && (forall p, i :: p in patches ==> !Touches(page, p, i, k)) ==>
                      out[k] == page[k])
  }

  lemma RewritesUniquely(page: seq<byte>, patches: set<Patch>, out: seq<byte>, out': seq<byte>)
    requires forall p :: p in patches ==> WellFormed(p)
    requires Rewrites(page, patches, out) && Rewrites(page, patches, out')
    ensures out == out'
  {
    forall k | 0 <= k < |page|
      ensures out[k] == out'[k]
    {
      if p, i :| p in patches && Touches(page, p, i, k) {
        assert out[k] == Mixed(p, k - i, page[k]);
      }
    }
  }

  // ---- Two matches

  /** On one page, matches that overlap are one and the same, or of different patches that agree there. */
  lemma MatchesMeet(page: seq<byte>, p: Patch, i: int, q: Patch, i': int)
    requires WellFormed(p) && WellFormed(q) && Compatible(p, q)
    requires Match(page, p, i) && Match(page, q, i') && Meet(p, i, q, i')
    ensures p == q ==> i == i'
    ensures p != q ==> Agree(p, q, i' - i)
  {
    if (p != q || i != i') && Clash(p, q, i' - i) {
      var j :| Exclusive(p, q, i' - i, j);
      ClashPrevents(page, p, i, q, i', j);
    }
  }

  lemma ClashPrevents(page: seq<byte>, p: Patch, i: int, q: Patch, i': int, j: int)
    requires WellFormed(p) && WellFormed(q) && Exclusive(p, q, i' - i, j) && Match(page, p, i)
    ensures !Match(page, q, i')
  {
    assert FitsAt(page, p, i, i' - i + j);
    assert !FitsAt(page, q, i', j);
  }

  /** Two matches that cover a place make the same of it. */
  lemma CoveredTwice(page: seq<byte>, p: Patch, i: int, q: Patch, i': int, k: int)
    requires WellFormed(p) && WellFormed(q) && Compatible(p, q)
    requires Touches(page, p, i, k) && Touches(page, q, i', k)
    ensures Mixed(p, k - i, page[k]) == Mixed(q, k - i', page[k])
  {
    MatchesMeet(page, p, i, q, i');
    if p != q { AgreeTwice(page, p, i, q, i', k); }
  }

  lemma AgreeTwice(page: seq<byte>, p: Patch, i: int, q: Patch, i': int, k: int)
    requires WellFormed(p) && WellFormed(q) && Agree(p, q, i' - i)
    requires Touches(page, p, i, k) && Touches(page, q, i', k)
    ensures Mixed(p, k - i, page[k]) == Mixed(q, k - i', page[k])
  {
    assert AgreeAt(p, q, i' - i, k - i');
    assert FitsAt(page, p, i, k - i) && FitsAt(page, q, i', k - i');
  }

  /** A match that meets one of another patch leaves the places beside that as they are. */
  lemma Beside(page: seq<byte>, p: Patch, s: int, q: Patch, i: int, k: int)
    requires WellFormed(p) && WellFormed(q) && Compatible(p, q) && p != q
    requires Match(page, p, s) && Meet(p, s, q, i) && Touches(page, q, i, k) && !In(k, s, |p.find|)
    ensures Mixed(q, k - i, page[k]) == page[k]
  {
    MatchesMeet(page, p, s, q, i);
    assert AgreeAt(p, q, i - s, k - i);
    assert FitsAt(page, q, i, k - i);
  }

  // ---- One patch

  /** Matches of the patch on one page do not overlap. */
  ghost predicate OnceOnly(p: Patch)
    requires WellFormed(p)
  {
    forall page, i, i' :: Match(page, p, i) && Match(page, p, i') && Meet(p, i, p, i') ==> i == i'
  }

  lemma CompatibleOnceOnly(p: Patch)
    requires WellFormed(p) && Compatible(p, p)
    ensures OnceOnly(p)
  {
    forall page, i, i' | Match(page, p, i) && Match(page, p, i') && Meet(p, i, p, i')
      ensures i == i'
    {
      MatchesMeet(page, p, i, p, i');
    }
  }

  /** The scan from place `s` on has replaced exactly the matches from there on. */
  ghost predicate RewritesFrom(page: seq<byte>, p: Patch, s: int, out: seq<byte>)
    requires WellFormed(p)
  {
    && |out| == |page|
    && (forall i, k :: s <= i && 0 <= k < |page| && Touches(page, p, i, k) ==> out[k] == Mixed(p, k - i, page[k]))
    && (forall k :: 0 <= k < |page| && (forall i :: s <= i ==> !Touches(page, p, i, k)) ==> out[k] == page[k])
  }

  lemma {:induction false} ScanRewrites(page: seq<byte>, p: Patch, s: nat, out: seq<byte>)
    requires WellFormed(p) && OnceOnly(p) && out == Scan(page, p, s)
    ensures RewritesFrom(page, p, s, out)
    decreases |page| - s
  {
    if s + |p.find| > |page| {
      assert forall i, k :: s <= i ==> !Touches(page, p, i, k);
    } else if Match(page, p, s) {
      ScanMatch(page, p, s);
      ScanRewrites(ReplacedAt(page, p, s), p, s + |p.find|, out);
      ScanStep(page, p, s, ReplacedAt(page, p, s), out);
    } else {
      ScanNoMatch(page, p, s);
      ScanRewrites(page, p, s + 1, out);
      ScanSkip(page, p, s, out);
    }
  }

  lemma ScanSkip(page: seq<byte>, p: Patch, s: nat, out: seq<byte>)
    requires WellFormed(p) && !Match(page, p, s) && RewritesFrom(page, p, s + 1, out)
    ensures RewritesFrom(page, p, s, out)
  {
    forall k | 0 <= k < |page| && forall i :: s <= i ==> !Touches(page, p, i, k)
      ensures out[k] == page[k]
    {
      assert forall i :: s + 1 <= i ==> !Touches(page, p, i, k);
    }
  }

  /** Behind a replaced match the page is as it was, so it has the same matches there. */
  lemma SameBehind(page: seq<byte>, p: Patch, s: nat, page': seq<byte>, i: int)
    requires WellFormed(p) && Match(page, p, s) && page' == ReplacedAt(page, p, s) && s + |p.find| <= i
    ensures Match(page, p, i) <==> Match(page', p, i)
  {
    ReplacedBytes(page, p, s);
    assert i + |p.find| <= |page| ==>
             forall j :: 0 <= j < |p.find| ==> (FitsAt(page, p, i, j) <==> FitsAt(page', p, i, j));
  }

  /** Where the pattern matches. */
  ghost function MatchPlaces(page: seq<byte>, p: Patch): iset<int>
    requires WellFormed(p)
  {
    iset i | Match(page, p, i)
  }

  /** The places that a search from left to right comes upon: the first of `hits` from `s` on, then the first
      that is at least `size` behind it, and so on. */
  ghost predicate Leftmost(hits: iset<int>, size: int, s: int, places: seq<int>)
    decreases |places|
  {
    if places == [] then forall i :: s <= i ==> i !in hits
    else
      && s <= places[0] && places[0] in hits
      && (forall i :: s <= i < places[0] ==> i !in hits)
      && Leftmost(hits, size, places[0] + size, places[1..])
  }

  /** `out` is the page with the patch put in these places and nothing else changed. */
  ghost predicate ReplacedIn(page: seq<byte>, p: Patch, places: seq<int>, out: seq<byte>)
    requires WellFormed(p)
  {
    && |out| == |page|
    && (forall n, k :: 0 <= n < |places| && 0 <= k < |page| && In(k, places[n], |p.find|) ==>
                         out[k] == Mixed(p, k - places[n], page[k]))
    && (forall k :: 0 <= k < |page| && (forall n :: 0 <= n < |places| ==> !In(k, places[n], |p.find|)) ==>
                      out[k] == page[k])
  }

  lemma {:induction false} ScanLeftmost(page: seq<byte>, p: Patch, s: nat, out: seq<byte>)
    returns (places: seq<int>)
    requires WellFormed(p) && out == Scan(page, p, s)
    ensures Leftmost(MatchPlaces(page, p), |p.find|, s, places) && ReplacedIn(page, p, places, out)
    decreases |page| - s
  {
    if s + |p.find| > |page| {
      places := [];
    } else if Match(page, p, s) {
      ScanMatch(page, p, s);
      var page' := ReplacedAt(page, p, s);
      var rest := ScanLeftmost(page', p, s + |p.find|, out);
      forall i | s + |p.find| <= i
        ensures i in MatchPlaces(page, p) <==> i in MatchPlaces(page', p)
      {
        SameBehind(page, p, s, page', i);
      }
      SameLeftmost(MatchPlaces(page', p), MatchPlaces(page, p), |p.find|, s + |p.find|, rest);
      ReplacedMore(page, p, s, page', rest, out);
      places := [s] + rest;
    } else {
      ScanNoMatch(page, p, s);
      places := ScanLeftmost(page, p, s + 1, out);
    }
  }

  lemma {:induction false} SameLeftmost(hits: iset<int>, hits': iset<int>, size: nat, s: int, places: seq<int>)
    requires Leftmost(hits, size, s, places) && forall i :: s <= i ==> (i in hits <==> i in hits')
    ensures Leftmost(hits', size, s, places) && forall n :: 0 <= n < |places| ==> s <= places[n]
    decreases |places|
  {
    if places == [] {
    } else {
      SameLeftmost(hits, hits', size, places[0] + size, places[1..]);
      assert forall n :: 0 < n < |places| ==> places[n] == places[1..][n - 1];
    }
  }

  lemma ReplacedMore(page: seq<byte>, p: Patch, s: nat, page': seq<byte>, rest: seq<int>, out: seq<byte>)
    requires WellFormed(p) && Match(page, p, s) && page' == ReplacedAt(page, p, s)
    requires (forall n :: 0 <= n < |rest| ==> s + |p.find| <= rest[n]) && ReplacedIn(page', p, rest, out)
    ensures ReplacedIn(page, p, [s] + rest, out)
  {
    ReplacedBytes(page, p, s);
    var places := [s] + rest;
    forall k | 0 <= k < |page| && forall n :: 0 <= n < |places| ==> !In(k, places[n], |p.find|)
      ensures out[k] == page[k]
    {
      assert !In(k, places[0], |p.find|);
      forall n | 0 <= n < |rest|
        ensures !In(k, rest[n], |p.find|)
      {
        assert !In(k, places[n + 1], |p.find|);
      }
    }
  }

  /** Any patch, even one whose matches overlap one another, replaces the leftmost match, then the leftmost
      behind it, and so on, all as they stand on the page, and changes nothing else. */
  lemma ApplyLeftmost(page: seq<byte>, p: Patch)
    requires WellFormed(p)
    ensures exists places :: Leftmost(MatchPlaces(page, p), |p.find|, 0, places) &&
                             ReplacedIn(page, p, places, Apply(page, p))
  {
    var places := ScanLeftmost(page, p, 0, Apply(page, p));
  }

  lemma ScanStep(page: seq<byte>, p: Patch, s: nat, page': seq<byte>, out: seq<byte>)
    requires WellFormed(p) && OnceOnly(p) && Match(page, p, s) && page' == ReplacedAt(page, p, s)
    requires RewritesFrom(page', p, s + |p.find|, out)
    ensures RewritesFrom(page, p, s, out)
  {
    ReplacedBytes(page, p, s);
    var n := s + |p.find|;
    forall i, k | s <= i && 0 <= k < |page| && Touches(page, p, i, k)
      ensures out[k] == Mixed(p, k - i, page[k])
    {
      if i < n {
        assert Meet(p, s, p, i);
        assert forall i' :: n <= i' ==> !Touches(page', p, i', k);
      } else {
        SameBehind(page, p, s, page', i);
        assert Touches(page', p, i, k);
      }
    }
    forall k | 0 <= k < |page| && forall i :: s <= i ==> !Touches(page, p, i, k)
      ensures out[k] == page[k]
    {
      assert !Touches(page, p, s, k);
      forall i | n <= i
        ensures !Touches(page', p, i, k)
      {
        SameBehind(page, p, s, page', i);
        assert !Touches(page, p, i, k);
      }
    }
  }

  lemma ApplyRewrites(page: seq<byte>, p: Patch)
    requires WellFormed(p) && Compatible(p, p)
    ensures Rewrites(page, {p}, Apply(page, p))
  {
    CompatibleOnceOnly(p);
    var out := Apply(page, p);
    ScanRewrites(page, p, 0, out);
    forall k | 0 <= k < |page| && forall q, i :: q in {p} ==> !Touches(page, q, i, k)
      ensures out[k] == page[k]
    {
      assert p in {p};
      assert forall i :: 0 <= i ==> !Touches(page, p, i, k);
    }
  }

  // ---- What one patch does to the matches of another

  /** A match that no match of `p` overlaps is on both pages or on neither. */
  lemma SameApart(page: seq<byte>, p: Patch, out: seq<byte>, q: Patch, i: int)
    requires WellFormed(p) && WellFormed(q) && Rewrites(page, {p}, out)
    requires forall s :: Match(page, p, s) ==> !Meet(p, s, q, i)
    ensures Match(page, q, i) <==> Match(out, q, i)
  {
    if 0 <= i && i + |q.find| <= |page| {
      forall j | 0 <= j < |q.find|
        ensures FitsAt(page, q, i, j) <==> FitsAt(out, q, i, j)
      {
        var k := i + j;
        forall r, s | r in {p}
          ensures !Touches(page, r, s, k)
        {
          if Match(page, p, s) { assert !Meet(p, s, q, i); }
        }
        assert out[k] == page[k];
      }
    }
  }

  /** Nothing matches where `p` has been at work. */
  lemma NoneWhereReplaced(page: seq<byte>, p: Patch, out: seq<byte>, q: Patch, s: int, i: int)
    requires WellFormed(p) && WellFormed(q) && Compatible(p, q) && Rewrites(page, {p}, out)
    requires Match(page, p, s) && Meet(p, s, q, i)
    ensures !Match(out, q, i)
  {
    assert Purge(p, q, i - s);
    var j :| Expelled(p, q, i - s, j);
    var k := i + j;
    assert FitsAt(page, p, s, k - s);
    assert p in {p} && Touches(page, p, s, k);
    assert !FitsAt(out, q, i, j);
  }

  /** Applying `p` takes away its own matches and those that meet them, and leaves all others. */
  lemma MatchesAfter(page: seq<byte>, p: Patch, out: seq<byte>, q: Patch, i: int)
    requires WellFormed(p) && WellFormed(q) && Compatible(p, q) && Rewrites(page, {p}, out)
    ensures Match(out, q, i) <==>
            p != q && Match(page, q, i) && forall s :: Match(page, p, s) ==> !Meet(p, s, q, i)
  {
    if s :| Match(page, p, s) && Meet(p, s, q, i) {
      NoneWhereReplaced(page, p, out, q, s, i);
    } else {
      SameApart(page, p, out, q, i);
      if p == q && Match(page, p, i) {
        assert Meet(p, i, q, i);
        assert false;
      }
    }
  }

  // ---- Lists

  ghost function Members(patches: seq<Patch>): set<Patch>
  {
    set p | p in patches
  }

  lemma FamilyRest(patches: seq<Patch>)
    requires Family(Members(patches)) && patches != []
    ensures Family(Members(patches[1..])) && Members(patches[1..]) + {patches[0]} == Members(patches)
    ensures WellFormed(patches[0]) && Compatible(patches[0], patches[0])
    ensures forall p :: p in patches ==> WellFormed(p)
  {
    assert patches[0] in Members(patches);
    assert forall q :: q in patches ==> q in Members(patches);
    assert Members(patches[1..]) <= Members(patches);
  }

  /** A list of compatible patches, applied one after the other, rewrites the page simultaneously. */
  lemma {:induction false} ListRewrites(page: seq<byte>, patches: seq<Patch>)
    requires Family(Members(patches))
    ensures forall p :: p in patches ==> WellFormed(p)
    ensures Rewrites(page, Members(patches), ApplyAll(page, patches))
    decreases |patches|
  {
    if patches == [] {
    } else {
      var p, rest := patches[0], patches[1..];
      FamilyRest(patches);
      ApplyRewrites(page, p);
      var page' := Apply(page, p);
      ListRewrites(page', rest);
      ListStep(page, p, page', Members(rest), ApplyAll(page', rest));
    }
  }

  lemma ListStep(page: seq<byte>, p: Patch, page': seq<byte>, rest: set<Patch>, out: seq<byte>)
    requires Family(rest + {p}) && WellFormed(p)
    requires forall q :: q in rest ==> WellFormed(q)
    requires Rewrites(page, {p}, page') && Rewrites(page', rest, out)
    ensures Rewrites(page, rest + {p}, out)
  {
    forall q, i, k | q in rest + {p} && 0 <= k < |page| && Touches(page, q, i, k)
      ensures out[k] == Mixed(q, k - i, page[k])
    {
      if s :| Touches(page, p, s, k) {
        WrittenOnce(page, p, page', rest, out, s, k);
        assert p in rest + {p};
        CoveredTwice(page, p, s, q, i, k);
      } else {
        WrittenLater(page, p, page', rest, out, q, i, k);
      }
    }
    forall k | 0 <= k < |page| && forall q, i :: q in rest + {p} ==> !Touches(page, q, i, k)
      ensures out[k] == page[k]
    {
      assert forall q, i :: q in {p} ==> q in rest + {p} && !Touches(page, q, i, k);
      forall q, i | q in rest
        ensures !Touches(page', q, i, k)
      {
        assert q in rest + {p} && !Touches(page, q, i, k);
        MatchesAfter(page, p, page', q, i);
      }
    }
  }

  /** What `p` has written stays. */
  lemma WrittenOnce(page: seq<byte>, p: Patch, page': seq<byte>, rest: set<Patch>, out: seq<byte>, s: int, k: int)
    requires Family(rest + {p}) && WellFormed(p)
    requires forall q :: q in rest ==> WellFormed(q)
    requires Rewrites(page, {p}, page') && Rewrites(page', rest, out)
    requires Touches(page, p, s, k)
    ensures out[k] == Mixed(p, k - s, page[k])
  {
    assert p in {p};
    forall r, i | r in rest
      ensures !Touches(page', r, i, k)
    {
      assert r in rest + {p} && p in rest + {p};
      if In(k, i, |r.find|) {
        assert Meet(p, s, r, i);
        NoneWhereReplaced(page, p, page', r, s, i);
      }
    }
  }

  /** Where `p` writes nothing, a match of another patch on the original page is honoured, whether it
      survives `p` or not. */
  lemma WrittenLater(page: seq<byte>, p: Patch, page': seq<byte>, rest: set<Patch>, out: seq<byte>,
                     q: Patch, i: int, k: int)
    requires Family(rest + {p}) && WellFormed(p) && q in rest + {p} && WellFormed(q)
    requires forall r :: r in rest ==> WellFormed(r)
    requires Rewrites(page, {p}, page') && Rewrites(page', rest, out)
    requires Touches(page, q, i, k) && forall s :: !Touches(page, p, s, k)
    ensures out[k] == Mixed(q, k - i, page[k])
  {
    assert p in rest + {p} && p != q && q in rest;
    assert page'[k] == page[k] by {
      assert forall r, s :: r in {p} ==> !Touches(page, r, s, k);
    }
    if r, i' :| r in rest && Touches(page', r, i', k) {
      MatchesAfter(page, p, page', r, i');
      assert r in rest + {p};
      CoveredTwice(page, r, i', q, i, k);
    } else {
      MatchesAfter(page, p, page', q, i);
      assert !Touches(page', q, i, k);
      var s :| Match(page, p, s) && Meet(p, s, q, i);
      assert !Touches(page, p, s, k);
      Beside(page, p, s, q, i, k);
    }
  }

  /** The order of a compatible list and repetitions in it do not matter. */
  lemma OrderIrrelevant(page: seq<byte>, patches: seq<Patch>, patches': seq<Patch>)
    requires Family(Members(patches)) && Members(patches) == Members(patches')
    requires forall p :: p in patches' ==> WellFormed(p)
    ensures ApplyAll(page, patches) == ApplyAll(page, patches')
  {
    ListRewrites(page, patches);
    ListRewrites(page, patches');
    RewritesUniquely(page, Members(patches), ApplyAll(page, patches), ApplyAll(page, patches'));
  }

  /** Applying some of a family creates no match of any of it. */
  lemma {:induction false} NoNewMatch(page: seq<byte>, patches: seq<Patch>, q: Patch, i: int)
    requires Family(Members(patches) + {q}) && WellFormed(q)
    requires forall p :: p in patches ==> WellFormed(p)
    ensures Match(ApplyAll(page, patches), q, i) ==> Match(page, q, i)
    decreases |patches|
  {
    if patches == [] {
    } else {
      var p, rest := patches[0], patches[1..];
      assert p in Members(patches) && q in Members(patches) + {q} && p in Members(patches) + {q};
      assert Members(rest) + {q} <= Members(patches) + {q};
      ApplyRewrites(page, p);
      MatchesAfter(page, p, Apply(page, p), q, i);
      NoNewMatch(Apply(page, p), rest, q, i);
    }
  }

  /** After a compatible list has been applied, none of its patterns is left on the page. */
  lemma {:induction false} NoResidue(page: seq<byte>, patches: seq<Patch>, q: Patch, i: int)
    requires Family(Members(patches)) && q in patches && WellFormed(q)
    requires forall p :: p in patches ==> WellFormed(p)
    ensures !Match(ApplyAll(page, patches), q, i)
    decreases |patches|
  {
    var p, rest := patches[0], patches[1..];
    assert p in Members(patches) && q in Members(patches);
    assert Members(rest) <= Members(patches);
    var page' := Apply(page, p);
    if q in rest {
      NoResidue(page', rest, q, i);
    } else {
      ApplyRewrites(page, p);
      MatchesAfter(page, p, page', q, i);
      assert Members(rest) + {q} <= Members(patches);
      NoNewMatch(page', rest, q, i);
    }
  }

  /** Applying the list a second time changes nothing. */
  lemma AgainUnchanged(page: seq<byte>, patches: seq<Patch>)
    requires Family(Members(patches))
    requires forall p :: p in patches ==> WellFormed(p)
    ensures ApplyAll(ApplyAll(page, patches), patches) == ApplyAll(page, patches)
  {
    var once := ApplyAll(page, patches);
    ListRewrites(once, patches);
    forall p, i, k | p in Members(patches)
      ensures !Touches(once, p, i, k)
    {
      NoResidue(page, patches, p, i);
    }
    assert Rewrites(once, Members(patches), once);
    RewritesUniquely(once, Members(patches), ApplyAll(once, patches), once);
  }
}
