/** What the merge loop guarantees, for every walk order and every pattern of failures. */
module MergeProperties {
  import opened PropertyTrees
  import opened MergeRuns

  /** No copy fails, at any depth. */
  ghost predicate CopiesHold(visits: seq<Visit>)
  {
    forall i :: 0 <= i < |visits| ==> visits[i].copyOk && CopiesHold(visits[i].nested)
  }

  /** No copy and no store fails, at any depth. */
  ghost predicate AllHold(visits: seq<Visit>)
  {
    forall i :: 0 <= i < |visits| ==> visits[i].copyOk && visits[i].setOk && AllHold(visits[i].nested)
  }

  lemma SameEntries(t: Tree, t': Tree)
    requires t.Node? && t'.Node?
    requires forall k :: Entry(t, k) == Entry(t', k)
    ensures t == t'
  {
    assert forall k :: k in t.kids <==> Entry(t, k) != Nothing;
    assert forall k :: k in t'.kids <==> Entry(t', k) != Nothing;
    forall k | k in t.kids
      ensures t.kids[k] == t'.kids[k]
    {
      assert Entry(t, k) == Entry(t', k);
    }
    assert t.kids == t'.kids;
  }

  // ---- The clean prefix

  /** The keys of the first `n` turns. */
  ghost predicate Among(visits: seq<Visit>, n: nat, k: string)
    requires n <= |visits|
  {
    exists i :: 0 <= i < n && visits[i].key == k
  }

  lemma PrefixEntry(s: Tree, t: Tree, visits: seq<Visit>, n: nat, r: Tree, k: string)
    requires t.Node? && Walks(visits, s) && n <= |visits|
    requires StoredUpTo(s, t, visits, n, r)
    requires forall i :: 0 <= i < n && VisitOf(visits[i], s) ==>
               Stored(s, t, visits[i]) == MergedEntry(s, t, visits[i].key)
    ensures Among(visits, n, k) ==> k in s.kids && Entry(r, k) == Something(MergedEntry(s, t, k))
    ensures !Among(visits, n, k) ==> Entry(r, k) == Entry(t, k)
  {
    if Among(visits, n, k) {
      var i :| 0 <= i < n && visits[i].key == k;
      assert VisitOf(visits[i], s);
      assert Entry(r, visits[i].key) == Something(Stored(s, t, visits[i]));
    }
  }

  /** The target after turns that each stored a deep-merged entry. */
  lemma PrefixMerged(s: Tree, t: Tree, visits: seq<Visit>, n: nat, r: Tree)
    requires t.Node? && Walks(visits, s) && n <= |visits|
    requires StoredUpTo(s, t, visits, n, r)
    requires forall i :: 0 <= i < n && VisitOf(visits[i], s) ==>
               Stored(s, t, visits[i]) == MergedEntry(s, t, visits[i].key)
    ensures r == MergedOn(s, t, Keys(visits[..n]))
  {
    var m := MergedOn(s, t, Keys(visits[..n]));
    forall k
      ensures Entry(r, k) == Entry(m, k)
    {
      PrefixEntry(s, t, visits, n, r, k);
      assert k in Keys(visits[..n]) <==> Among(visits, n, k);
    }
    SameEntries(r, m);
  }

  lemma AllKeys(s: Tree, t: Tree, visits: seq<Visit>)
    requires t.Node? && Covers(visits, s)
    ensures MergedOn(s, t, Keys(visits[..|visits|])) == Merged(s, t)
  {
    assert visits[..|visits|] == visits;
    assert s.kids.Keys <= Keys(visits);
    MergedOnAll(s, t, Keys(visits));
  }

  lemma MergedOnAll(s: Tree, t: Tree, done: set<string>)
    requires s.Node? && t.Node? && s.kids.Keys <= done
    ensures MergedOn(s, t, done) == Merged(s, t)
  {
    assert done * s.kids.Keys == s.kids.Keys;
  }

  /** When copies succeed, the target ends with exactly the keys before the failing one
      deep-merged; the answer is true exactly when there was a key and none failed. */
  lemma {:induction false} CleanPrefix(s: Tree, t: Tree, visits: seq<Visit>)
    requires t.Node? && Covers(visits, s) && CopiesHold(visits)
    ensures var n, r := Reached(s, t, visits), MergeAlong(s, t, visits);
      && r.tree == MergedOn(s, t, Keys(visits[..n]))
      && (r.ok <==> 0 < n == |visits|)
    decreases s, 1
  {
    RunShape(s, t, visits, false);
    var n, r := Reached(s, t, visits), MergeAlong(s, t, visits).tree;
    forall i | 0 <= i < n && VisitOf(visits[i], s)
      ensures Stored(s, t, visits[i]) == MergedEntry(s, t, visits[i].key)
    {
      StoredMerged(s, t, visits[i]);
    }
    PrefixMerged(s, t, visits, n, r);
  }

  lemma {:induction false} StoredMerged(s: Tree, t: Tree, v: Visit)
    requires t.Node? && VisitOf(v, s) && CopiesHold(v.nested) && Done(s, t, v)
    ensures Stored(s, t, v) == MergedEntry(s, t, v.key)
    decreases s, 0
  {
    if Shared(s, t, v.key) {
      CleanMerge(s.kids[v.key], t.kids[v.key], v.nested);
    }
  }

  /** When copies succeed, a true answer means that the target is the deep merge. */
  lemma {:induction false} CleanMerge(s: Tree, t: Tree, visits: seq<Visit>)
    requires t.Node? && Covers(visits, s) && CopiesHold(visits)
    ensures MergeAlong(s, t, visits).ok ==> MergeAlong(s, t, visits).tree == Merged(s, t)
    decreases s, 2
  {
    CleanPrefix(s, t, visits);
    AllKeys(s, t, visits);
  }

  // ---- The return value

  ghost predicate DictionaryAt(t: Tree, path: seq<string>)
  {
    At(t, path).Something? && At(t, path).tree.Node?
  }

  /** At every key path where both sides hold a dictionary, the source's has an entry. */
  ghost predicate Populated(s: Tree, t: Tree)
  {
    forall path :: DictionaryAt(s, path) && DictionaryAt(t, path) ==> At(s, path).tree.kids != map[]
  }

  lemma PopulatedBelow(s: Tree, t: Tree)
    requires s.Node? && t.Node?
    ensures Populated(s, t) <==>
            s.kids != map[] && forall k :: Shared(s, t, k) ==> Populated(s.kids[k], t.kids[k])
  {
    if Populated(s, t) {
      assert DictionaryAt(s, []) && DictionaryAt(t, []);
      forall k, path | Shared(s, t, k) && DictionaryAt(s.kids[k], path) && DictionaryAt(t.kids[k], path)
        ensures At(s.kids[k], path).tree.kids != map[]
      {
        assert ([k] + path)[1..] == path;
        assert DictionaryAt(s, [k] + path) && DictionaryAt(t, [k] + path);
      }
    } else {
      var path :| DictionaryAt(s, path) && DictionaryAt(t, path) && At(s, path).tree.kids == map[];
      if path != [] {
        assert DictionaryAt(s.kids[path[0]], path[1..]) && DictionaryAt(t.kids[path[0]], path[1..]);
        assert Shared(s, t, path[0]);
      }
    }
  }

  lemma {:induction false} AllHoldCopies(visits: seq<Visit>)
    requires AllHold(visits)
    ensures CopiesHold(visits)
  {
    forall i | 0 <= i < |visits| { AllHoldCopies(visits[i].nested); }
  }

  /** When nothing fails, the call answers true exactly when the source is populated wherever the
      target has a dictionary too, whatever the walk order. An empty source answers false. */
  lemma {:induction false} ReturnValue(s: Tree, t: Tree, visits: seq<Visit>)
    requires t.Node? && Covers(visits, s) && AllHold(visits)
    ensures MergeAlong(s, t, visits).ok <==> Populated(s, t)
    decreases s
  {
    AllHoldCopies(visits);
    CleanPrefix(s, t, visits);
    PopulatedBelow(s, t);
    forall i | 0 <= i < |visits|
      ensures VisitOf(visits[i], s)
      ensures var k := visits[i].key;
        Done(s, t, visits[i]) <==> (Shared(s, t, k) ==> Populated(s.kids[k], t.kids[k]))
    {
      assert VisitOf(visits[i], s);
      var k := visits[i].key;
      if Shared(s, t, k) { ReturnValue(s.kids[k], t.kids[k], visits[i].nested); }
    }
    var n := Reached(s, t, visits);
    if n == |visits| {
      forall k | Shared(s, t, k)
        ensures Populated(s.kids[k], t.kids[k])
      {
        var i :| 0 <= i < |visits| && visits[i].key == k;
      }
    }
    assert s.kids != map[] <==> visits != [] by {
      if s.kids != map[] {
        var k :| k in s.kids;
        assert exists i :: 0 <= i < |visits| && visits[i].key == k;
      }
    }
  }

  /** When nothing fails, the walk order matters neither for the answer nor, if that is true, for
      the target. */
  lemma WalkOrderIrrelevant(s: Tree, t: Tree, visits: seq<Visit>, visits': seq<Visit>)
    requires t.Node? && Covers(visits, s) && AllHold(visits) && Covers(visits', s) && AllHold(visits')
    ensures MergeAlong(s, t, visits).ok == MergeAlong(s, t, visits').ok
    ensures MergeAlong(s, t, visits).ok ==> MergeAlong(s, t, visits).tree == MergeAlong(s, t, visits').tree
  {
    AllHoldCopies(visits);
    AllHoldCopies(visits');
    ReturnValue(s, t, visits);
    ReturnValue(s, t, visits');
    CleanMerge(s, t, visits);
    CleanMerge(s, t, visits');
  }

  // ---- Merging again

  /** A target that already is its own deep merge is left alone by every walk and every pattern
      of failures, whatever the answer. */
  lemma {:induction false} SettledUnchanged(s: Tree, t: Tree, visits: seq<Visit>)
    requires t.Node? && Covers(visits, s)
    requires Merged(s, t) == t
    ensures MergeAlong(s, t, visits).tree == t
    decreases s
  {
    RunShape(s, t, visits, false);
    var n, r := Reached(s, t, visits), MergeAlong(s, t, visits).tree;
    forall i | 0 <= i < n && VisitOf(visits[i], s)
      ensures Stored(s, t, visits[i]) == MergedEntry(s, t, visits[i].key)
    {
      var k := visits[i].key;
      assert Merged(s, t).kids[k] == MergedEntry(s, t, k);
      if Shared(s, t, k) {
        SettledUnchanged(s.kids[k], t.kids[k], visits[i].nested);
      }
    }
    PrefixMerged(s, t, visits, n, r);
    MergedOnSettled(s, t, Keys(visits[..n]));
  }

  lemma MergedOnSettled(s: Tree, t: Tree, done: set<string>)
    requires s.Node? && t.Node? && Merged(s, t) == t
    ensures MergedOn(s, t, done) == t
  {
    forall k | k in s.kids
      ensures k in t.kids && MergedEntry(s, t, k) == t.kids[k]
    {
      assert k in Merged(s, t).kids;
    }
  }

  /** After a merge in which all copies were made and which answered true, merging the same source again
      changes nothing, whatever fails in the second merge. */
  lemma RemergeUnchanged(s: Tree, t: Tree, first: seq<Visit>, second: seq<Visit>)
    requires t.Node? && Covers(first, s) && CopiesHold(first) && MergeAlong(s, t, first).ok
    requires Covers(second, s)
    ensures MergeAlong(s, MergeAlong(s, t, first).tree, second).tree == MergeAlong(s, t, first).tree
  {
    CleanMerge(s, t, first);
    MergedTwice(s, t);
    SettledUnchanged(s, Merged(s, t), second);
  }

  /** After a shallow override by the same source, the deep merge changes nothing. */
  lemma OverrideUnchanged(s: Tree, t: Tree, visits: seq<Visit>)
    requires t.Node? && Covers(visits, s)
    ensures MergeAlong(s, Node(t.kids + s.kids), visits).tree == Node(t.kids + s.kids)
  {
    MergedIntoOverride(s, t);
    SettledUnchanged(s, Node(t.kids + s.kids), visits);
  }
}
