/** The values that property dictionaries unfold to, and the deep merge that the
    display merge driver is meant to compute on them. */
module PropertyTrees {

  /** An OSObject that is not a dictionary; only probe() looks inside one. */
  datatype Value = Number(number: bv64) | Text(text: string)

  /** What a dictionary object unfolds to: keys are unordered, sharing is gone. */
  datatype Tree = Leaf(value: Value) | Node(kids: map<string, Tree>)

  /** Both sides hold a dictionary under `k`: the case in which the driver recurses. */
  predicate Shared(s: Tree, t: Tree, k: string)
    requires s.Node? && t.Node?
  {
    k in s.kids && k in t.kids && s.kids[k].Node? && t.kids[k].Node?
  }

  /** The deep merge of `s` over `t`: dictionaries merge key by key, anything else in `s` wins. */
  function Merged(s: Tree, t: Tree): Tree
    decreases s
  {
    if s.Node? && t.Node? then
      Node(map k | k in s.kids.Keys + t.kids.Keys ::
             if k !in s.kids then t.kids[k]
             else if k !in t.kids then s.kids[k]
             else Merged(s.kids[k], t.kids[k]))
    else
      s
  }

  /** The entry that the deep merge has under a key of `s`. */
  function MergedEntry(s: Tree, t: Tree, k: string): Tree
    requires s.Node? && t.Node? && k in s.kids
  {
    if k in t.kids then Merged(s.kids[k], t.kids[k]) else s.kids[k]
  }

  /** `t` with only those keys of `s` that are in `done` deep-merged. */
  function MergedOn(s: Tree, t: Tree, done: set<string>): Tree
    requires s.Node? && t.Node?
  {
    Node(map k | k in t.kids.Keys + done * s.kids.Keys ::
           if k in done * s.kids.Keys then MergedEntry(s, t, k) else t.kids[k])
  }

  /** What a key path leads to. */
  datatype Found = Nothing | Something(tree: Tree)

  function At(t: Tree, path: seq<string>): Found
    decreases |path|
  {
    if path == [] then Something(t)
    else if t.Node? && path[0] in t.kids then At(t.kids[path[0]], path[1..])
    else Nothing
  }

  /** The source has a leaf at `path` or on the way to it, so it decides what is there. */
  predicate Decided(s: Tree, path: seq<string>)
    decreases |path|
  {
    s.Leaf? || (path != [] && path[0] in s.kids && Decided(s.kids[path[0]], path[1..]))
  }

  /** What stands at a key path, without what is below it: nothing, a leaf, or a dictionary. */
  function Surface(t: Tree, path: seq<string>): Found
  {
    match At(t, path)
    case Nothing => Nothing
    case Something(Leaf(v)) => Something(Leaf(v))
    case Something(Node(_)) => Something(Node(map[]))
  }

  /** The deep merge path by path, without recursion: at every key path stands what the source has there,
      or else what the target has there, unless a leaf of the source stands on the way. */
  lemma {:induction false} MergedSurface(s: Tree, t: Tree, path: seq<string>)
    ensures Surface(Merged(s, t), path) ==
            if Surface(s, path) != Nothing then Surface(s, path)
            else if Decided(s, path) then Nothing
            else Surface(t, path)
    decreases |path|
  {
    if path == [] {
    } else if s.Node? && t.Node? {
      var k := path[0];
      if k in s.kids && k in t.kids {
        MergedSurface(s.kids[k], t.kids[k], path[1..]);
      }
    }
  }

  /** What stands at all key paths determines a tree, so the lemma above says all there is to say about
      the deep merge. */
  lemma {:induction false} SurfaceDetermines(t: Tree, t': Tree)
    requires forall path :: Surface(t, path) == Surface(t', path)
    ensures t == t'
    decreases t
  {
    assert Surface(t, []) == Surface(t', []);
    if t.Leaf? {
    } else {
      forall k
        ensures k in t.kids <==> k in t'.kids
        ensures k in t.kids && k in t'.kids ==> t.kids[k] == t'.kids[k]
      {
        KeySurface(t, k);
        KeySurface(t', k);
        assert Surface(t, [k]) == Surface(t', [k]);
        if k in t.kids && k in t'.kids {
          SurfaceBelow(t, t', k);
          SurfaceDetermines(t.kids[k], t'.kids[k]);
        }
      }
      assert t.kids == t'.kids;
    }
  }

  lemma KeySurface(t: Tree, k: string)
    requires t.Node?
    ensures Surface(t, [k]) == Nothing <==> k !in t.kids
  {
    assert k in t.kids ==> At(t, [k]) == At(t.kids[k], []);
  }

  lemma SurfaceBelow(t: Tree, t': Tree, k: string)
    requires t.Node? && t'.Node? && k in t.kids && k in t'.kids
    requires forall path :: Surface(t, path) == Surface(t', path)
    ensures forall path :: Surface(t.kids[k], path) == Surface(t'.kids[k], path)
  {
    forall path
      ensures Surface(t.kids[k], path) == Surface(t'.kids[k], path)
    {
      assert ([k] + path)[1..] == path;
      assert Surface(t, [k] + path) == Surface(t', [k] + path);
    }
  }

  /** In particular the leaves of the deep merge. */
  lemma MergedLeafAt(s: Tree, t: Tree, path: seq<string>, v: Value)
    ensures At(Merged(s, t), path) == Something(Leaf(v)) <==>
            || At(s, path) == Something(Leaf(v))
            || (At(s, path) == Nothing && !Decided(s, path) && At(t, path) == Something(Leaf(v)))
  {
    MergedSurface(s, t, path);
  }

  lemma {:induction false} MergedWithItself(s: Tree)
    ensures Merged(s, s) == s
  {
    if !s.Node? {
    } else {
      forall k | k in s.kids { MergedWithItself(s.kids[k]); }
    }
  }

  lemma {:induction false} MergedTwice(s: Tree, t: Tree)
    ensures Merged(s, Merged(s, t)) == Merged(s, t)
  {
    MergedWithItself(s);
    if !s.Node? || !t.Node? {
    } else {
      forall k | k in s.kids { MergedWithItself(s.kids[k]); }
      forall k | k in s.kids && k in t.kids { MergedTwice(s.kids[k], t.kids[k]); }
    }
  }

  /** Laying the source over the target key by key already leaves nothing to deep-merge. */
  lemma MergedIntoOverride(s: Tree, t: Tree)
    requires s.Node? && t.Node?
    ensures Merged(s, Node(t.kids + s.kids)) == Node(t.kids + s.kids)
  {
    var over := Node(t.kids + s.kids);
    var merged := Merged(s, over);
    assert merged.kids.Keys == over.kids.Keys;
    forall k | k in over.kids
      ensures merged.kids[k] == over.kids[k]
    {
      if k in s.kids { MergedWithItself(s.kids[k]); }
    }
    assert merged.kids == over.kids;
  }
}
