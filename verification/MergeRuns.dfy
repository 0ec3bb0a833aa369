/** The merge loop of the display merge driver on unfolded dictionaries, for every order in which
    a dictionary may be walked and every pattern of failing operations. */
module MergeRuns {
  import opened PropertyTrees

  /** One turn of the loop: the key that the iterator yields, whether copying the target's child
      dictionary and storing the entry succeed, and the turns of the nested merge. */
  datatype Visit = Visit(key: string, copyOk: bool, setOk: bool, nested: seq<Visit>)

  datatype Outcome = Outcome(ok: bool, tree: Tree)

  /** The walk yields keys of `s`, none twice, and nested walks are complete. */
  ghost predicate Walks(visits: seq<Visit>, s: Tree)
    decreases s, 1
  {
    && s.Node?
    && (forall i, j :: 0 <= i < j < |visits| ==> visits[i].key != visits[j].key)
    && (forall i :: 0 <= i < |visits| ==> VisitOf(visits[i], s))
  }

  ghost predicate VisitOf(v: Visit, s: Tree)
    decreases s, 0
  {
    s.Node? && v.key in s.kids && (s.kids[v.key].Node? ==> Covers(v.nested, s.kids[v.key]))
  }

  /** The walk yields every key of `s` once, in some order. */
  ghost predicate Covers(visits: seq<Visit>, s: Tree)
    ensures Covers(visits, s) ==> s.Node?
    decreases s, 2
  {
    && Walks(visits, s)
    && forall k :: k in s.kids ==> exists i :: 0 <= i < |visits| && visits[i].key == k
  }

  function Keys(visits: seq<Visit>): (keys: set<string>)
    ensures forall k :: k in keys <==> exists i :: 0 <= i < |visits| && visits[i].key == k
  {
    set i | 0 <= i < |visits| :: visits[i].key
  }

  /** The loop from the remaining `visits` on, with `result` the value assigned last.
      A failed copy leaves the loop without assigning it. */
  ghost function Run(s: Tree, t: Tree, visits: seq<Visit>, result: bool): (r: Outcome)
    requires t.Node? && Walks(visits, s)
    ensures r.tree.Node?
    decreases s, |visits|
  {
    if visits == [] then Outcome(result, t)
    else
      var v := visits[0];
      assert VisitOf(v, s);
      if Shared(s, t, v.key) then
        if !v.copyOk then Outcome(result, t)
        else
          assert Covers(v.nested, s.kids[v.key]);
          var sub := Run(s.kids[v.key], t.kids[v.key], v.nested, false);
          if !sub.ok || !v.setOk then Outcome(false, t)
          else Run(s, Node(t.kids[v.key := sub.tree]), visits[1..], true)
      else if !v.setOk then Outcome(false, t)
      else Run(s, Node(t.kids[v.key := s.kids[v.key]]), visits[1..], true)
  }

  /** A whole call. */
  ghost function MergeAlong(s: Tree, t: Tree, visits: seq<Visit>): (r: Outcome)
    requires t.Node? && Covers(visits, s)
    ensures r.tree.Node?
  {
    Run(s, t, visits, false)
  }

  /** The shallow merge: entries of `s` replace those of `t` until one cannot be stored. */
  ghost function Overridden(s: Tree, t: Tree, visits: seq<Visit>): (r: Tree)
    requires t.Node? && Walks(visits, s)
    ensures r.Node?
    decreases |visits|
  {
    if visits == [] || !visits[0].setOk then t
    else
      assert VisitOf(visits[0], s);
      Overridden(s, Node(t.kids[visits[0].key := s.kids[visits[0].key]]), visits[1..])
  }

  // ---- Which turns complete, seen from the call's own arguments only

  /** The turn `v` stores its entry. */
  ghost predicate Done(s: Tree, t: Tree, v: Visit)
    requires t.Node? && VisitOf(v, s)
  {
    v.setOk && (Shared(s, t, v.key) ==> v.copyOk && MergeAlong(s.kids[v.key], t.kids[v.key], v.nested).ok)
  }

  /** The entry that the turn `v` stores. */
  ghost function Stored(s: Tree, t: Tree, v: Visit): Tree
    requires t.Node? && VisitOf(v, s)
  {
    if Shared(s, t, v.key) then MergeAlong(s.kids[v.key], t.kids[v.key], v.nested).tree
    else s.kids[v.key]
  }

  /** How many turns complete before the loop ends. */
  ghost function Reached(s: Tree, t: Tree, visits: seq<Visit>): (n: nat)
    requires t.Node? && Walks(visits, s)
    ensures n <= |visits|
    ensures forall i :: 0 <= i < n ==> Done(s, t, visits[i])
    ensures n < |visits| ==> !Done(s, t, visits[n])
  {
    if visits == [] || !Done(s, t, visits[0]) then 0
    else
      assert forall i :: 1 <= i < |visits| ==> visits[1..][i - 1] == visits[i];
      1 + Reached(s, t, visits[1..])
  }

  /** What `t` holds under `k`. */
  ghost function Entry(t: Tree, k: string): Found
    requires t.Node?
  {
    if k in t.kids then Something(t.kids[k]) else Nothing
  }

  /** `t'` is `t` with the entries of the first `n` turns stored and nothing else changed. */
  ghost predicate StoredUpTo(s: Tree, t: Tree, visits: seq<Visit>, n: nat, t': Tree)
    requires t.Node? && Walks(visits, s) && n <= |visits|
  {
    && t'.Node?
    && (forall i :: 0 <= i < n ==> Entry(t', visits[i].key) == Something(Stored(s, t, visits[i])))
    && (forall k :: (forall i :: 0 <= i < n ==> visits[i].key != k) ==> Entry(t', k) == Entry(t, k))
  }

  /** A turn looks only at its own key of the target. */
  lemma ReachedElsewhere(s: Tree, t: Tree, t': Tree, visits: seq<Visit>)
    requires t.Node? && t'.Node? && Walks(visits, s)
    requires forall i :: 0 <= i < |visits| ==> Entry(t, visits[i].key) == Entry(t', visits[i].key)
    ensures Reached(s, t, visits) == Reached(s, t', visits)
    ensures forall v :: v in visits && VisitOf(v, s) ==> Stored(s, t, v) == Stored(s, t', v)
  {
    forall i | 0 <= i < |visits|
      ensures Done(s, t, visits[i]) == Done(s, t', visits[i]) && Stored(s, t, visits[i]) == Stored(s, t', visits[i])
    {
      assert Entry(t, visits[i].key) == Entry(t', visits[i].key);
    }
  }

  /** The value that the loop returns when it stops after `n` completed turns. */
  ghost predicate Answer(s: Tree, t: Tree, visits: seq<Visit>, n: nat, result: bool)
    requires t.Node? && Walks(visits, s) && n <= |visits|
  {
    (result || n > 0) && (n < |visits| ==> Shared(s, t, visits[n].key) && !visits[n].copyOk)
  }

  /** One completed turn. */
  lemma RunTurn(s: Tree, t: Tree, visits: seq<Visit>, result: bool)
    requires t.Node? && Walks(visits, s) && visits != []
    ensures Walks(visits[1..], s)
    ensures Done(s, t, visits[0]) ==>
              Run(s, t, visits, result)
              == Run(s, Node(t.kids[visits[0].key := Stored(s, t, visits[0])]), visits[1..], true)
    ensures !Done(s, t, visits[0]) ==> Run(s, t, visits, result).tree == t
    ensures !Done(s, t, visits[0]) ==>
              Run(s, t, visits, result).ok == (result && Shared(s, t, visits[0].key) && !visits[0].copyOk)
  {
    assert VisitOf(visits[0], s);
  }

  /** The loop, which rewrites the target as it goes, against the turns taken separately. */
  lemma {:induction false} RunShape(s: Tree, t: Tree, visits: seq<Visit>, result: bool)
    requires t.Node? && Walks(visits, s)
    ensures var n, r := Reached(s, t, visits), Run(s, t, visits, result);
      && StoredUpTo(s, t, visits, n, r.tree)
      && r.ok == Answer(s, t, visits, n, result)
    decreases |visits|
  {
    if visits == [] {
    } else {
      RunTurn(s, t, visits, result);
      if Done(s, t, visits[0]) {
        var t' := Node(t.kids[visits[0].key := Stored(s, t, visits[0])]);
        RunShape(s, t', visits[1..], true);
        ShapeStep(s, t, visits, t', Run(s, t', visits[1..], true));
      }
    }
  }

  lemma ShapeStep(s: Tree, t: Tree, visits: seq<Visit>, t': Tree, r: Outcome)
    requires t.Node? && visits != [] && Walks(visits, s) && Walks(visits[1..], s)
    requires Done(s, t, visits[0]) && t' == Node(t.kids[visits[0].key := Stored(s, t, visits[0])])
    requires StoredUpTo(s, t', visits[1..], Reached(s, t', visits[1..]), r.tree)
    requires r.ok == Answer(s, t', visits[1..], Reached(s, t', visits[1..]), true)
    ensures StoredUpTo(s, t, visits, Reached(s, t, visits), r.tree)
    ensures forall result :: r.ok == Answer(s, t, visits, Reached(s, t, visits), result)
  {
    var rest := visits[1..];
    ReachedElsewhere(s, t, t', rest);
    StoredFirst(s, t, visits, 1 + Reached(s, t, rest), r.tree);
    var n := Reached(s, t, rest);
    if n < |rest| {
      assert rest[n] == visits[n + 1];
      assert Entry(t, rest[n].key) == Entry(t', rest[n].key);
    }
  }

  lemma StoredFirst(s: Tree, t: Tree, visits: seq<Visit>, n: nat, r: Tree)
    requires t.Node? && Walks(visits, s) && 0 < n <= |visits| && Walks(visits[1..], s)
    requires StoredUpTo(s, Node(t.kids[visits[0].key := Stored(s, t, visits[0])]), visits[1..], n - 1, r)
    requires forall v :: v in visits[1..] && VisitOf(v, s) ==>
               Stored(s, t, v) == Stored(s, Node(t.kids[visits[0].key := Stored(s, t, visits[0])]), v)
    ensures StoredUpTo(s, t, visits, n, r)
  {
    var t' := Node(t.kids[visits[0].key := Stored(s, t, visits[0])]);
    forall i | 0 <= i < n
      ensures Entry(r, visits[i].key) == Something(Stored(s, t, visits[i]))
    {
      if i == 0 {
        assert Entry(r, visits[0].key) == Entry(t', visits[0].key);
      } else {
        assert visits[i] == visits[1..][i - 1];
        assert visits[i] in visits[1..];
      }
    }
    forall k | forall i :: 0 <= i < n ==> visits[i].key != k
      ensures Entry(r, k) == Entry(t, k)
    {
      assert visits[0].key != k;
      assert forall i :: 0 <= i < n - 1 ==> visits[1..][i] == visits[i + 1];
      assert Entry(t', k) == Entry(t, k);
    }
  }

  // ---- Following the loop

  /** After `i` turns the target has become `cur` and the result `result`. */
  ghost predicate OnTrack(s: Tree, t: Tree, visits: seq<Visit>, i: nat, cur: Tree, result: bool)
    requires t.Node? && Walks(visits, s)
  {
    && i <= |visits| && cur.Node? && Walks(visits[i..], s)
    && Run(s, t, visits, false) == Run(s, cur, visits[i..], result)
  }

  lemma FirstTurn(s: Tree, t: Tree, visits: seq<Visit>)
    requires t.Node? && Walks(visits, s)
    ensures OnTrack(s, t, visits, 0, t, false)
  {
    assert visits[0..] == visits;
  }

  lemma NextTurn(s: Tree, t: Tree, visits: seq<Visit>, i: nat, cur: Tree, result: bool)
    requires t.Node? && Walks(visits, s) && i < |visits| && OnTrack(s, t, visits, i, cur, result)
    ensures VisitOf(visits[i], s)
    ensures Done(s, cur, visits[i]) ==>
              OnTrack(s, t, visits, i + 1, Node(cur.kids[visits[i].key := Stored(s, cur, visits[i])]), true)
    ensures !Done(s, cur, visits[i]) ==>
              Run(s, t, visits, false) == Outcome(result && Shared(s, cur, visits[i].key) && !visits[i].copyOk, cur)
  {
    RunTurn(s, cur, visits[i..], result);
    assert visits[i..][0] == visits[i] && visits[i..][1..] == visits[i + 1..];
  }

  lemma LastTurn(s: Tree, t: Tree, visits: seq<Visit>, cur: Tree, result: bool)
    requires t.Node? && Walks(visits, s) && OnTrack(s, t, visits, |visits|, cur, result)
    ensures Run(s, t, visits, false) == Outcome(result, cur)
  {
  }
}
