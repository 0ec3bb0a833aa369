/** When the answer `true` can be trusted. A failed copy of the target's child leaves the loop
    without assigning the result, so the `true` of an earlier key is returned although keys
    are left unmerged. This module decides, from the two dictionaries alone, whether that can
    happen. */
module StaleAnswers {
  import opened PropertyTrees
  import opened MergeRuns
  import opened MergeProperties

  /** Some walk answers true: a first key can be stored. */
  ghost predicate CanAnswerTrue(s: Tree, t: Tree)
    decreases s
  {
    s.Node? && t.Node? &&
    exists j :: j in s.kids && (Shared(s, t, j) ==> CanAnswerTrue(s.kids[j], t.kids[j]))
  }

  ghost predicate CanStore(s: Tree, t: Tree, j: string)
    requires s.Node? && t.Node?
  {
    j in s.kids && (Shared(s, t, j) ==> CanAnswerTrue(s.kids[j], t.kids[j]))
  }

  /** The deep merge changes the target under the source's key `m`. */
  ghost predicate Changes(s: Tree, t: Tree, m: string)
    requires s.Node? && t.Node?
  {
    m in s.kids && Entry(t, m) != Something(MergedEntry(s, t, m))
  }

  /** The answer true can be wrong: already below a shared key; or because some key `j` can be stored
      before a shared key `k` whose copy can fail, with a key other than `j` still to be changed. */
  ghost predicate Overstates(s: Tree, t: Tree)
    decreases s
  {
    s.Node? && t.Node? &&
    (|| (exists k :: Shared(s, t, k) && Overstates(s.kids[k], t.kids[k]))
     || (exists j, k, m ::
           CanStore(s, t, j) && Shared(s, t, k) && j != k && Changes(s, t, m) && m != j))
  }

  // ---- Where the answer cannot be wrong

  lemma TrueAnswerPossible(s: Tree, t: Tree, visits: seq<Visit>)
    requires t.Node? && Covers(visits, s) && MergeAlong(s, t, visits).ok
    ensures visits != [] && CanStore(s, t, visits[0].key) && CanAnswerTrue(s, t)
    decreases s
  {
    RunShape(s, t, visits, false);
    var v := visits[0];
    assert VisitOf(v, s) && Done(s, t, v);
    if Shared(s, t, v.key) {
      TrueAnswerPossible(s.kids[v.key], t.kids[v.key], v.nested);
    }
    assert CanStore(s, t, v.key);
  }

  /** For every walk order and every pattern of failures at any depth: the keys before the one that
      ended the loop are deep-merged and all others untouched, provided that no pair of
      dictionaries below can overstate. The answer is true only if a key was stored and the loop
      did not end at a failed store or a failed nested merge. */
  lemma {:induction false} TrustedPrefix(s: Tree, t: Tree, visits: seq<Visit>)
    requires t.Node? && Covers(visits, s)
    requires forall k :: Shared(s, t, k) ==> !Overstates(s.kids[k], t.kids[k])
    ensures var n := Reached(s, t, visits);
      && MergeAlong(s, t, visits).tree == MergedOn(s, t, Keys(visits[..n]))
      && MergeAlong(s, t, visits).ok == Answer(s, t, visits, n, false)
    decreases s, 0
  {
    RunShape(s, t, visits, false);
    var n := Reached(s, t, visits);
    forall i | 0 <= i < n && VisitOf(visits[i], s)
      ensures Stored(s, t, visits[i]) == MergedEntry(s, t, visits[i].key)
    {
      var k := visits[i].key;
      if Shared(s, t, k) { Trustworthy(s.kids[k], t.kids[k], visits[i].nested); }
    }
    PrefixMerged(s, t, visits, n, MergeAlong(s, t, visits).tree);
  }

  lemma {:induction false} Trustworthy(s: Tree, t: Tree, visits: seq<Visit>)
    requires t.Node? && Covers(visits, s) && MergeAlong(s, t, visits).ok && !Overstates(s, t)
    ensures MergeAlong(s, t, visits).tree == Merged(s, t)
    decreases s, 1
  {
    TrustedPrefix(s, t, visits);
    var n := Reached(s, t, visits);
    if n == |visits| {
      AllKeys(s, t, visits);
    } else {
      TrueAnswerPossible(s, t, visits);
      NothingElseChanges(s, t, visits[0].key, visits[n].key);
      assert visits[0].key in Keys(visits[..n]);
      MergedOnEnough(s, t, Keys(visits[..n]));
    }
  }

  lemma NothingElseChanges(s: Tree, t: Tree, j: string, k: string)
    requires s.Node? && t.Node? && !Overstates(s, t)
    requires CanStore(s, t, j) && Shared(s, t, k) && j != k
    ensures forall m :: m in s.kids && m != j ==> Entry(t, m) == Something(MergedEntry(s, t, m))
  {
    forall m | m in s.kids && m != j
      ensures Entry(t, m) == Something(MergedEntry(s, t, m))
    {
      assert !Changes(s, t, m);
    }
  }

  lemma MergedOnEnough(s: Tree, t: Tree, done: set<string>)
    requires s.Node? && t.Node?
    requires forall m :: m in s.kids && m !in done ==> Entry(t, m) == Something(MergedEntry(s, t, m))
    ensures MergedOn(s, t, done) == Merged(s, t)
  {
    forall k
      ensures Entry(MergedOn(s, t, done), k) == Entry(Merged(s, t), k)
    {
      if k in s.kids && k !in done {
        assert Entry(t, k) == Something(MergedEntry(s, t, k));
      }
    }
    SameEntries(MergedOn(s, t, done), Merged(s, t));
  }

  // ---- Walks that go wrong

  /** All copies fail and all stores succeed, at the top level. */
  ghost predicate Uncopied(visits: seq<Visit>)
  {
    forall i :: 0 <= i < |visits| ==> !visits[i].copyOk && visits[i].setOk
  }

  /** The walk yields exactly `keys`. */
  ghost predicate Yields(visits: seq<Visit>, keys: set<string>)
  {
    && (forall i :: 0 <= i < |visits| ==> visits[i].key in keys)
    && (forall k :: k in keys ==> exists i :: 0 <= i < |visits| && visits[i].key == k)
  }

  lemma SomeVisit(s: Tree, k: string) returns (v: Visit)
    requires s.Node? && k in s.kids
    ensures v.key == k && !v.copyOk && v.setOk && VisitOf(v, s)
    decreases s, 0
  {
    var nested := [];
    if s.kids[k].Node? { nested := SomeWalk(s.kids[k], s.kids[k].kids.Keys); }
    v := Visit(k, false, true, nested);
  }

  lemma SomeWalk(s: Tree, keys: set<string>) returns (visits: seq<Visit>)
    requires s.Node? && keys <= s.kids.Keys
    ensures Walks(visits, s) && Yields(visits, keys) && Uncopied(visits)
    ensures keys == s.kids.Keys ==> Covers(visits, s)
    decreases s, 1, keys
  {
    visits := [];
    if keys != {} {
      var k :| k in keys;
      var v := SomeVisit(s, k);
      var rest := SomeWalk(s, keys - {k});
      visits := Prepended(s, v, rest, keys - {k});
      assert keys - {k} + {k} == keys;
    }
  }

  lemma Prepended(s: Tree, v: Visit, rest: seq<Visit>, keys: set<string>) returns (visits: seq<Visit>)
    requires Walks(rest, s) && Yields(rest, keys) && VisitOf(v, s) && v.key !in keys
    ensures visits == [v] + rest && Walks(visits, s) && Yields(visits, keys + {v.key})
  {
    visits := [v] + rest;
    assert visits[0] == v;
    forall k | k in keys
      ensures exists i :: 0 <= i < |visits| && visits[i].key == k
    {
      var i :| 0 <= i < |rest| && rest[i].key == k;
      assert visits[i + 1] == rest[i];
    }
  }

  /** A walk that begins with a turn that stores its entry, after which every copy fails. */
  lemma WalkAfter(s: Tree, t: Tree, v: Visit) returns (visits: seq<Visit>)
    requires t.Node? && VisitOf(v, s) && Done(s, t, v)
    ensures Covers(visits, s) && visits[..1] == [v] && MergeAlong(s, t, visits).ok
  {
    var rest := SomeWalk(s, s.kids.Keys - {v.key});
    visits := Prepended(s, v, rest, s.kids.Keys - {v.key});
    assert s.kids.Keys - {v.key} + {v.key} == s.kids.Keys;
    AnswersTrueAfter(s, t, visits);
  }

  lemma AnswersTrueAfter(s: Tree, t: Tree, visits: seq<Visit>)
    requires t.Node? && Covers(visits, s) && visits != [] && Uncopied(visits[1..])
    requires VisitOf(visits[0], s) && Done(s, t, visits[0])
    ensures MergeAlong(s, t, visits).ok && Reached(s, t, visits) > 0
  {
    RunShape(s, t, visits, false);
    var n := Reached(s, t, visits);
    if n < |visits| {
      assert VisitOf(visits[n], s) && !Done(s, t, visits[n]);
      assert visits[n] == visits[1..][n - 1];
    }
  }

  lemma {:induction false} TrueWalk(s: Tree, t: Tree) returns (visits: seq<Visit>)
    requires CanAnswerTrue(s, t)
    ensures Covers(visits, s) && MergeAlong(s, t, visits).ok
    decreases s, 1
  {
    var j :| j in s.kids && (Shared(s, t, j) ==> CanAnswerTrue(s.kids[j], t.kids[j]));
    var v := StoringVisit(s, t, j);
    visits := WalkAfter(s, t, v);
  }

  lemma {:induction false} StoringVisit(s: Tree, t: Tree, j: string) returns (v: Visit)
    requires s.Node? && t.Node? && CanStore(s, t, j)
    ensures v.key == j && VisitOf(v, s) && Done(s, t, v)
    decreases s, 0
  {
    if Shared(s, t, j) {
      var nested := TrueWalk(s.kids[j], t.kids[j]);
      v := Visit(j, true, true, nested);
    } else {
      v := SomeVisit(s, j);
    }
  }

  /** A true answer with something else than the deep merge in the target. */
  ghost predicate Wrong(s: Tree, t: Tree, visits: seq<Visit>)
    requires t.Node? && Covers(visits, s)
  {
    MergeAlong(s, t, visits).ok && MergeAlong(s, t, visits).tree != Merged(s, t)
  }

  lemma WrongEntry(s: Tree, t: Tree, visits: seq<Visit>, m: string)
    requires t.Node? && Covers(visits, s) && m in s.kids
    requires MergeAlong(s, t, visits).ok && Entry(MergeAlong(s, t, visits).tree, m) != Something(MergedEntry(s, t, m))
    ensures Wrong(s, t, visits)
  {
    assert Entry(Merged(s, t), m) == Something(MergedEntry(s, t, m));
  }

  lemma {:induction false} WrongBelow(s: Tree, t: Tree, k: string, nested: seq<Visit>)
    returns (visits: seq<Visit>)
    requires s.Node? && t.Node? && Shared(s, t, k)
    requires Covers(nested, s.kids[k]) && Wrong(s.kids[k], t.kids[k], nested)
    ensures Covers(visits, s) && Wrong(s, t, visits)
  {
    var v := Visit(k, true, true, nested);
    visits := WalkAfter(s, t, v);
    assert visits[0] == visits[..1][0];
    RunShape(s, t, visits, false);
    assert Entry(MergeAlong(s, t, visits).tree, visits[0].key) == Something(Stored(s, t, v));
    WrongEntry(s, t, visits, k);
  }

  /** A walk that stores `j` first and then fails to copy `k`. */
  lemma WalkPast(s: Tree, t: Tree, j: string, k: string) returns (visits: seq<Visit>)
    requires s.Node? && t.Node? && CanStore(s, t, j) && Shared(s, t, k) && j != k
    ensures Covers(visits, s) && |visits| > 1 && Uncopied(visits[1..])
    ensures VisitOf(visits[0], s) && visits[0].key == j && Done(s, t, visits[0])
    ensures VisitOf(visits[1], s) && visits[1].key == k && !visits[1].copyOk
  {
    var v := StoringVisit(s, t, j);
    var w := SomeVisit(s, k);
    var others := s.kids.Keys - {j, k};
    var rest := SomeWalk(s, others);
    var tail := Prepended(s, w, rest, others);
    visits := Prepended(s, v, tail, others + {k});
    assert others + {k} + {j} == s.kids.Keys;
    assert visits[1..] == tail && visits[1] == w;
  }

  lemma {:induction false} WrongHere(s: Tree, t: Tree, j: string, k: string, m: string)
    returns (visits: seq<Visit>)
    requires s.Node? && t.Node? && CanStore(s, t, j) && Shared(s, t, k) && j != k
    requires Changes(s, t, m) && m != j
    ensures Covers(visits, s) && Wrong(s, t, visits)
  {
    visits := WalkPast(s, t, j, k);
    AnswersTrueAfter(s, t, visits);
    SecondStops(s, t, visits, m);
    WrongEntry(s, t, visits, m);
  }

  /** If the second turn does not store, only the first key is touched. */
  lemma SecondStops(s: Tree, t: Tree, visits: seq<Visit>, m: string)
    requires t.Node? && Covers(visits, s) && |visits| > 1 && m != visits[0].key
    requires VisitOf(visits[1], s) && !Done(s, t, visits[1])
    ensures Entry(MergeAlong(s, t, visits).tree, m) == Entry(t, m)
  {
    RunShape(s, t, visits, false);
    var n := Reached(s, t, visits);
    assert n <= 1;
    assert forall i :: 0 <= i < n ==> visits[i].key != m;
  }

  lemma {:induction false} WrongWalk(s: Tree, t: Tree) returns (visits: seq<Visit>)
    requires Overstates(s, t)
    ensures Covers(visits, s) && Wrong(s, t, visits)
    decreases s
  {
    if k :| Shared(s, t, k) && Overstates(s.kids[k], t.kids[k]) {
      var nested := WrongWalk(s.kids[k], t.kids[k]);
      visits := WrongBelow(s, t, k, nested);
    } else {
      var j, k, m :| CanStore(s, t, j) && Shared(s, t, k) && j != k && Changes(s, t, m) && m != j;
      visits := WrongHere(s, t, j, k, m);
    }
  }

  /** A true answer means a complete deep merge, for every walk order and every pattern of failures,
      exactly when the two dictionaries do not overstate. */
  lemma TrueMeansMerged(s: Tree, t: Tree)
    requires s.Node? && t.Node?
    ensures (forall visits :: Covers(visits, s) && MergeAlong(s, t, visits).ok ==>
                                MergeAlong(s, t, visits).tree == Merged(s, t))
            <==> !Overstates(s, t)
  {
    if Overstates(s, t) {
      var visits := WrongWalk(s, t);
    } else {
      forall visits | Covers(visits, s) && MergeAlong(s, t, visits).ok
        ensures MergeAlong(s, t, visits).tree == Merged(s, t)
      {
        Trustworthy(s, t, visits);
      }
    }
  }

  // ---- Merging again

  /** No walk, whatever it leaves undone, changes what the deep merge will be. */
  lemma {:induction false} MergedAfter(s: Tree, t: Tree, visits: seq<Visit>)
    requires t.Node? && Covers(visits, s)
    ensures Merged(s, MergeAlong(s, t, visits).tree) == Merged(s, t)
    decreases s
  {
    var n, r := Reached(s, t, visits), MergeAlong(s, t, visits).tree;
    RunShape(s, t, visits, false);
    forall k
      ensures Entry(Merged(s, r), k) == Entry(Merged(s, t), k)
    {
      if i :| 0 <= i < n && visits[i].key == k {
        assert VisitOf(visits[i], s);
        assert Entry(r, visits[i].key) == Something(Stored(s, t, visits[i]));
        MergedWithItself(s.kids[k]);
        if Shared(s, t, k) { MergedAfter(s.kids[k], t.kids[k], visits[i].nested); }
      } else {
        assert Entry(r, k) == Entry(t, k);
      }
    }
    SameEntries(Merged(s, r), Merged(s, t));
  }

  /** If the deep merge would change the target, some walk answers true and changes it. */
  lemma {:induction false} ChangingWalk(s: Tree, t: Tree) returns (visits: seq<Visit>)
    requires s.Node? && t.Node? && Merged(s, t) != t
    ensures Covers(visits, s) && MergeAlong(s, t, visits).ok && MergeAlong(s, t, visits).tree != t
    decreases s
  {
    var k := ChangedKey(s, t);
    var v := SomeVisit(s, k);
    if Shared(s, t, k) {
      var nested := ChangingWalk(s.kids[k], t.kids[k]);
      v := Visit(k, true, true, nested);
    }
    visits := WalkAfter(s, t, v);
    assert visits[0] == visits[..1][0];
    RunShape(s, t, visits, false);
    assert Entry(MergeAlong(s, t, visits).tree, visits[0].key) == Something(Stored(s, t, v));
  }

  lemma ChangedKey(s: Tree, t: Tree) returns (k: string)
    requires s.Node? && t.Node? && Merged(s, t) != t
    ensures Changes(s, t, k)
  {
    if forall m :: m in s.kids ==> !Changes(s, t, m) {
      forall m
        ensures Entry(Merged(s, t), m) == Entry(t, m)
      {
      }
      SameEntries(Merged(s, t), t);
    }
    k :| k in s.kids && Changes(s, t, k);
  }

  /** Merging a second time leaves what the first merge left. */
  ghost predicate Steady(s: Tree, t: Tree, first: seq<Visit>, second: seq<Visit>)
    requires t.Node? && Covers(first, s) && Covers(second, s)
  {
    MergeAlong(s, MergeAlong(s, t, first).tree, second).tree == MergeAlong(s, t, first).tree
  }

  lemma UnsteadyWalks(s: Tree, t: Tree) returns (first: seq<Visit>, second: seq<Visit>)
    requires Overstates(s, t)
    ensures Covers(first, s) && Covers(second, s) && MergeAlong(s, t, first).ok && !Steady(s, t, first, second)
  {
    first := WrongWalk(s, t);
    MergedAfter(s, t, first);
    second := ChangingWalk(s, MergeAlong(s, t, first).tree);
  }

  /** After a merge that answered true, merging the same source again changes nothing, whatever fails
      in either merge, exactly when the two dictionaries do not overstate. */
  lemma RemergeExact(s: Tree, t: Tree)
    requires s.Node? && t.Node?
    ensures (forall first, second :: Covers(first, s) && Covers(second, s) && MergeAlong(s, t, first).ok ==>
                                       Steady(s, t, first, second))
            <==> !Overstates(s, t)
  {
    if Overstates(s, t) {
      var first, second := UnsteadyWalks(s, t);
    } else {
      forall first, second | Covers(first, s) && Covers(second, s) && MergeAlong(s, t, first).ok
        ensures Steady(s, t, first, second)
      {
        Trustworthy(s, t, first);
        MergedTwice(s, t);
        SettledUnchanged(s, Merged(s, t), second);
      }
    }
  }

  // ---- The prefix that a failure leaves

  /** The walk leaves the keys before the one that ended it deep-merged and all others untouched. */
  ghost predicate LeavesPrefix(s: Tree, t: Tree, visits: seq<Visit>)
    requires t.Node? && Covers(visits, s)
  {
    MergeAlong(s, t, visits).tree == MergedOn(s, t, Keys(visits[..Reached(s, t, visits)]))
  }

  /** Some shared dictionaries can overstate. */
  ghost predicate OverstatesBelow(s: Tree, t: Tree)
    requires s.Node? && t.Node?
  {
    exists k :: Shared(s, t, k) && Overstates(s.kids[k], t.kids[k])
  }

  /** A stored entry that is not the deep merge spoils the prefix. */
  lemma SpoiltPrefix(s: Tree, t: Tree, visits: seq<Visit>)
    requires t.Node? && Covers(visits, s) && visits != [] && VisitOf(visits[0], s) && Done(s, t, visits[0])
    requires Stored(s, t, visits[0]) != MergedEntry(s, t, visits[0].key)
    ensures !LeavesPrefix(s, t, visits)
  {
    RunShape(s, t, visits, false);
    var n, k := Reached(s, t, visits), visits[0].key;
    assert visits[..n][0].key == k;
    assert k in Keys(visits[..n]);
    assert Entry(MergeAlong(s, t, visits).tree, visits[0].key) == Something(Stored(s, t, visits[0]));
    assert Entry(MergedOn(s, t, Keys(visits[..n])), k) == Something(MergedEntry(s, t, k));
  }

  /** The turn that stores a half-merged child. */
  lemma SpoilingVisit(s: Tree, t: Tree) returns (v: Visit)
    requires s.Node? && t.Node? && OverstatesBelow(s, t)
    ensures VisitOf(v, s) && Done(s, t, v) && Stored(s, t, v) != MergedEntry(s, t, v.key)
  {
    var k :| Shared(s, t, k) && Overstates(s.kids[k], t.kids[k]);
    var nested := WrongWalk(s.kids[k], t.kids[k]);
    v := Visit(k, true, true, nested);
  }

  /** Every walk, whatever fails in it at any depth, leaves a clean prefix exactly when no shared
      dictionaries can overstate. */
  lemma PrefixExact(s: Tree, t: Tree)
    requires s.Node? && t.Node?
    ensures (forall visits :: Covers(visits, s) ==> LeavesPrefix(s, t, visits)) <==> !OverstatesBelow(s, t)
  {
    if OverstatesBelow(s, t) {
      var v := SpoilingVisit(s, t);
      var visits := WalkAfter(s, t, v);
      assert visits[0] == visits[..1][0];
      SpoiltPrefix(s, t, visits);
    } else {
      forall visits | Covers(visits, s)
        ensures LeavesPrefix(s, t, visits)
      {
        TrustedPrefix(s, t, visits);
      }
    }
  }

  /** A walk that begins with `v` and then fails to store some other key. */
  lemma FailingWalk(s: Tree, t: Tree, v: Visit, j: string) returns (visits: seq<Visit>)
    requires t.Node? && VisitOf(v, s) && Done(s, t, v) && j in s.kids && j != v.key
    ensures Covers(visits, s) && |visits| > 1 && visits[0] == v && !MergeAlong(s, t, visits).ok
  {
    var w := SomeVisit(s, j);
    w := w.(setOk := false, copyOk := true);
    var others := s.kids.Keys - {v.key, j};
    var rest := SomeWalk(s, others);
    var tail := Prepended(s, w, rest, others);
    visits := Prepended(s, v, tail, others + {j});
    assert others + {j} + {v.key} == s.kids.Keys;
    assert visits[1] == w && !Done(s, t, w);
    RunShape(s, t, visits, false);
    assert Reached(s, t, visits) == 1;
  }

  /** The same for walks that answer false: there a second key is needed, which fails after the half-merged
      one was stored. */
  lemma FailurePrefixExact(s: Tree, t: Tree)
    requires s.Node? && t.Node?
    ensures (forall visits :: Covers(visits, s) && !MergeAlong(s, t, visits).ok ==> LeavesPrefix(s, t, visits))
            <==> !(OverstatesBelow(s, t) && |s.kids| > 1)
  {
    if OverstatesBelow(s, t) && |s.kids| > 1 {
      var v := SpoilingVisit(s, t);
      var j := OtherKey(s, v.key);
      var visits := FailingWalk(s, t, v, j);
      SpoiltPrefix(s, t, visits);
    } else {
      forall visits | Covers(visits, s) && !MergeAlong(s, t, visits).ok
        ensures LeavesPrefix(s, t, visits)
      {
        if OverstatesBelow(s, t) { OnlyKeyFailed(s, t, visits); } else { TrustedPrefix(s, t, visits); }
      }
    }
  }

  lemma OtherKey(s: Tree, k: string) returns (j: string)
    requires s.Node? && |s.kids| > 1
    ensures j in s.kids && j != k
  {
    if s.kids.Keys <= {k} {
      assert |s.kids.Keys| <= |{k}| by { SubsetSize(s.kids.Keys, {k}); }
    }
    j :| j in s.kids.Keys && j !in {k};
  }

  lemma {:induction false} SubsetSize(a: set<string>, b: set<string>)
    requires a <= b
    ensures |a| <= |b|
  {
    if a == {} {
    } else {
      var x :| x in a;
      SubsetSize(a - {x}, b - {x});
    }
  }

  /** If the only key fails, nothing is stored. */
  lemma OnlyKeyFailed(s: Tree, t: Tree, visits: seq<Visit>)
    requires t.Node? && Covers(visits, s) && |s.kids| <= 1 && !MergeAlong(s, t, visits).ok
    ensures LeavesPrefix(s, t, visits)
  {
    RunShape(s, t, visits, false);
    var n := Reached(s, t, visits);
    assert n == 0 by {
      if |visits| > 1 {
        assert VisitOf(visits[0], s) && VisitOf(visits[1], s);
        SubsetSize({visits[0].key, visits[1].key}, s.kids.Keys);
      }
    }
    PrefixMerged(s, t, visits, 0, MergeAlong(s, t, visits).tree);
  }

  // ---- Inputs on which the three properties fail

  /** The shortest case: the target has an empty dictionary under `b`, the source a plain value under
      `a` and a dictionary under `b`. Storing `a` and then failing to copy `b` answers true. */
  lemma StaleAnswer()
    ensures
      var s := Node(map["a" := Leaf(Number(1)), "b" := Node(map["c" := Leaf(Number(2))])]);
      var t := Node(map["b" := Node(map[])]);
      exists visits :: Covers(visits, s) && MergeAlong(s, t, visits).ok && MergeAlong(s, t, visits).tree != Merged(s, t)
  {
    var s, t := StaleInput();
    var visits := WrongWalk(s, t);
  }

  lemma StaleInput() returns (s: Tree, t: Tree)
    ensures s == Node(map["a" := Leaf(Number(1)), "b" := Node(map["c" := Leaf(Number(2))])])
    ensures t == Node(map["b" := Node(map[])])
    ensures Overstates(s, t)
  {
    s := Node(map["a" := Leaf(Number(1)), "b" := Node(map["c" := Leaf(Number(2))])]);
    t := Node(map["b" := Node(map[])]);
    assert Shared(s, t, "b") && CanStore(s, t, "a");
    assert "c" in Merged(s.kids["b"], t.kids["b"]).kids;
    assert Changes(s, t, "b");
  }

  /** On the same input a second merge changes what a first one that answered true left. */
  lemma StaleRemerge()
    ensures
      var s := Node(map["a" := Leaf(Number(1)), "b" := Node(map["c" := Leaf(Number(2))])]);
      var t := Node(map["b" := Node(map[])]);
      exists first, second :: Covers(first, s) && Covers(second, s) && MergeAlong(s, t, first).ok &&
                              !Steady(s, t, first, second)
  {
    var s, t := StaleInput();
    var first, second := UnsteadyWalks(s, t);
  }

  /** One level further down, and with one more key that fails, a false answer leaves a half-merged
      child behind. */
  lemma StalePrefix()
    ensures
      var s' := Node(map["a" := Leaf(Number(1)), "b" := Node(map["c" := Leaf(Number(2))])]);
      var t' := Node(map["b" := Node(map[])]);
      var s := Node(map["d" := s', "e" := Leaf(Number(3))]);
      var t := Node(map["d" := t']);
      exists visits :: Covers(visits, s) && !MergeAlong(s, t, visits).ok && !LeavesPrefix(s, t, visits)
  {
    var s', t' := StaleInput();
    var s := Node(map["d" := s', "e" := Leaf(Number(3))]);
    var t := Node(map["d" := t']);
    assert Shared(s, t, "d") && Overstates(s.kids["d"], t.kids["d"]);
    SubsetSize({"d", "e"}, s.kids.Keys);
    FailurePrefixExact(s, t);
  }

  // ---- Walks without failures

  lemma FlawlessVisit(s: Tree, k: string) returns (v: Visit)
    requires s.Node? && k in s.kids
    ensures v.key == k && v.copyOk && v.setOk && AllHold(v.nested) && VisitOf(v, s)
    decreases s, 0
  {
    var nested := [];
    if s.kids[k].Node? { nested := FlawlessWalk(s.kids[k], s.kids[k].kids.Keys); }
    v := Visit(k, true, true, nested);
  }

  lemma FlawlessWalk(s: Tree, keys: set<string>) returns (visits: seq<Visit>)
    requires s.Node? && keys <= s.kids.Keys
    ensures Walks(visits, s) && Yields(visits, keys) && AllHold(visits)
    ensures keys == s.kids.Keys ==> Covers(visits, s)
    decreases s, 1, keys
  {
    visits := [];
    if keys != {} {
      var k :| k in keys;
      var v := FlawlessVisit(s, k);
      var rest := FlawlessWalk(s, keys - {k});
      visits := Prepended(s, v, rest, keys - {k});
      assert keys - {k} + {k} == keys;
    }
  }

  /** Any two dictionaries can be walked without failures, and then the merge answers true and is complete
      exactly when the source is populated wherever the target has a dictionary too. */
  lemma MergePossible(s: Tree, t: Tree)
    requires s.Node? && t.Node?
    ensures exists visits :: Covers(visits, s) && AllHold(visits) && CopiesHold(visits) &&
              (MergeAlong(s, t, visits).ok <==> Populated(s, t)) &&
              (Populated(s, t) ==> MergeAlong(s, t, visits).tree == Merged(s, t))
  {
    var visits := FlawlessWalk(s, s.kids.Keys);
    AllHoldCopies(visits);
    ReturnValue(s, t, visits);
    CleanMerge(s, t, visits);
  }
}
