/** The display merge driver on the heap. Dictionaries are objects that may be shared; what one
    stands for is the tree it unfolds to. What the kernel decides (the order in which an iterator
    yields keys, which copies and stores fail) is the walk that each method is given. */
module DisplayMerge {
  import opened PropertyTrees
  import opened MergeRuns
  import opened MergeProperties

  datatype Object = Scalar(value: Value) | Dict(dictionary: Dictionary)

  class Dictionary {
    var entries: map<string, Object>

    constructor (entries: map<string, Object>)
      ensures this.entries == entries
    {
      this.entries := entries;
    }

    /** A shallow copy: the entries are shared with the original. */
    static method WithDictionary(d: Dictionary, succeeds: bool) returns (copy: Dictionary?)
      ensures copy != null <==> succeeds
      ensures copy != null ==> fresh(copy) && copy.entries == d.entries
    {
      copy := null;
      if succeeds { copy := new Dictionary(d.entries); }
    }

    method SetObject(key: string, value: Object, succeeds: bool) returns (ok: bool)
      modifies this
      ensures ok == succeeds
      ensures entries == if ok then old(entries)[key := value] else old(entries)
    {
      ok := succeeds;
      if ok { entries := entries[key := value]; }
    }

    /** The shallow merge: the entries of `other` replace those of this dictionary, until one
        cannot be stored. */
    method Merge(other: Dictionary, walk: seq<Visit>, ghost s: Tree, ghost t: Tree, ghost region: set<Dictionary>)
      returns (ok: bool)
      requires other in region && this !in region
      requires Unfolds(Dict(other), s, region) && Holds(this, t, region) && Covers(walk, s)
      modifies this
      ensures Holds(this, Overridden(s, t, walk), region)
      ensures ok <==> forall i :: 0 <= i < |walk| ==> walk[i].setOk
    {
      ok := true;
      var i := 0;
      ghost var cur := t;
      while i < |walk|
        invariant 0 <= i <= |walk|
        invariant cur.Node? && Holds(this, cur, region)
        invariant Walks(walk[i..], s) && Overridden(s, t, walk) == Overridden(s, cur, walk[i..])
        invariant ok && forall j :: 0 <= j < i ==> walk[j].setOk
      {
        var v := walk[i];
        assert VisitOf(v, s) && walk[i..][0] == v && walk[i..][1..] == walk[i + 1..];
        ok := SetObject(v.key, other.entries[v.key], v.setOk);
        if !ok { break; }
        cur := Node(cur.kids[v.key := s.kids[v.key]]);
        i := i + 1;
      }
    }
  }

  // ---- What a dictionary stands for

  /** `o` unfolds to the tree `t`, and every dictionary met on the way is in `region`. Because trees
      are finite, only objects with no cycle below them unfold. */
  ghost predicate Unfolds(o: Object, t: Tree, region: set<Dictionary>)
    reads region
    decreases t
  {
    match o
    case Scalar(v) => t == Leaf(v)
    case Dict(d) => d in region && t.Node? && EntriesUnfold(d.entries, t, region)
  }

  ghost predicate EntriesUnfold(entries: map<string, Object>, t: Tree, region: set<Dictionary>)
    requires t.Node?
    reads region
    decreases t, 0
  {
    entries.Keys == t.kids.Keys && forall k :: k in entries ==> Unfolds(entries[k], t.kids[k], region)
  }

  /** `d` itself is outside `region` but everything below it is inside, so writing to `d` cannot
      change what its entries stand for. */
  ghost predicate Holds(d: Dictionary, t: Tree, region: set<Dictionary>)
    reads d, region
  {
    d !in region && t.Node? && EntriesUnfold(d.entries, t, region)
  }

  lemma {:induction false} UnfoldsUniquely(o: Object, t: Tree, t': Tree,
                                           region: set<Dictionary>, region': set<Dictionary>)
    requires Unfolds(o, t, region) && Unfolds(o, t', region')
    ensures t == t'
    decreases t
  {
    if !o.Dict? {
    } else {
      forall k | k in t.kids
        ensures k in t'.kids && t.kids[k] == t'.kids[k]
      {
        UnfoldsUniquely(o.dictionary.entries[k], t.kids[k], t'.kids[k], region, region');
      }
      assert t.kids == t'.kids;
    }
  }

  lemma {:induction false} UnfoldsInMore(o: Object, t: Tree, region: set<Dictionary>, region': set<Dictionary>)
    requires Unfolds(o, t, region) && region <= region'
    ensures Unfolds(o, t, region')
    decreases t
  {
    if o.Dict? { EntriesUnfoldInMore(o.dictionary.entries, t, region, region'); }
  }

  lemma {:induction false} EntriesUnfoldInMore(entries: map<string, Object>, t: Tree,
                                               region: set<Dictionary>, region': set<Dictionary>)
    requires t.Node? && EntriesUnfold(entries, t, region) && region <= region'
    ensures EntriesUnfold(entries, t, region')
    decreases t, 0
  {
    forall k | k in entries
      ensures Unfolds(entries[k], t.kids[k], region')
    {
      UnfoldsInMore(entries[k], t.kids[k], region, region');
    }
  }

  /** Every tree is what some object unfolds to. */
  method Represent(t: Tree) returns (o: Object, ghost region: set<Dictionary>)
    ensures Unfolds(o, t, region) && fresh(region)
    decreases t
  {
    match t
    case Leaf(v) => o, region := Scalar(v), {};
    case Node(kids) =>
      var entries: map<string, Object>, rest := map[], kids.Keys;
      region := {};
      while rest != {}
        invariant rest <= kids.Keys && entries.Keys == kids.Keys - rest && fresh(region)
        invariant forall k :: k in entries ==> Unfolds(entries[k], kids[k], region)
        decreases rest
      {
        var k :| k in rest;
        var child, below := Represent(kids[k]);
        forall j | j in entries { UnfoldsInMore(entries[j], kids[j], region, region + below); }
        UnfoldsInMore(child, kids[k], below, region + below);
        entries, rest, region := entries[k := child], rest - {k}, region + below;
      }
      var d := new Dictionary(entries);
      EntriesUnfoldInMore(entries, t, region, region + {d});
      o, region := Dict(d), region + {d};
  }

  // ---- The recursive merge

  /** Copies the target's child dictionary and merges the source's into the copy: nothing that
      existed before is written. */
  method MergeIntoCopy(child: Dictionary, childTarget: Dictionary, v: Visit,
                       ghost s: Tree, ghost t: Tree, ghost region: set<Dictionary>)
    returns (copy: Dictionary?, ok: bool, ghost region': set<Dictionary>)
    requires Unfolds(Dict(child), s, region) && Unfolds(Dict(childTarget), t, region) && Covers(v.nested, s)
    ensures region <= region' && fresh(region' - region)
    ensures copy != null <==> v.copyOk
    ensures copy != null ==> fresh(copy) && ok == MergeAlong(s, t, v.nested).ok
    ensures copy != null ==> Unfolds(Dict(copy), MergeAlong(s, t, v.nested).tree, region')
    decreases s, 2
  {
    ok, region' := false, region;
    copy := Dictionary.WithDictionary(childTarget, v.copyOk);
    if copy != null {
      ghost var below;
      ok, below := MergeDictionaryIntoDictionary(child, copy, v.nested, s, t, region);
      region' := below + {copy};
      EntriesUnfoldInMore(copy.entries, MergeAlong(s, t, v.nested).tree, below, region');
    }
  }

  lemma EntryStored(entries: map<string, Object>, t: Tree, region: set<Dictionary>, k: string, o: Object, kid: Tree)
    requires t.Node? && EntriesUnfold(entries, t, region) && Unfolds(o, kid, region)
    ensures EntriesUnfold(entries[k := o], Node(t.kids[k := kid]), region)
  {
  }

  /** One turn of either merge loop: deals with the entry `child` that the source has under the key
      of `v`. `stored` says whether the loop goes on; `result'` is the result from then on. */
  method MergeEntry(child: Object, target: Dictionary, v: Visit, result: bool,
                    ghost s: Tree, ghost t: Tree, ghost region: set<Dictionary>)
    returns (stored: bool, result': bool, ghost region': set<Dictionary>)
    requires VisitOf(v, s) && Unfolds(child, s.kids[v.key], region) && Holds(target, t, region)
    modifies target
    ensures region <= region' && fresh(region' - region)
    ensures stored <==> Done(s, t, v)
    ensures Holds(target, if stored then Node(t.kids[v.key := Stored(s, t, v)]) else t, region')
    ensures result' == (stored || (result && Shared(s, t, v.key) && !v.copyOk))
    decreases s, 0
  {
    result', region' := result, region;
    assert v.key in target.entries ==> Unfolds(target.entries[v.key], t.kids[v.key], region);
    if v.key in target.entries && target.entries[v.key].Dict? && child.Dict? {
      var copy, ok;
      copy, ok, region' := MergeIntoCopy(child.dictionary, target.entries[v.key].dictionary, v,
                                         s.kids[v.key], t.kids[v.key], region);
      EntriesUnfoldInMore(target.entries, t, region, region');
      if copy == null { return false, result', region'; }
      result' := ok;
      if !result' { return false, result', region'; }
      EntryStored(target.entries, t, region', v.key, Dict(copy), Stored(s, t, v));
      result' := target.SetObject(v.key, Dict(copy), v.setOk);
    } else {
      EntryStored(target.entries, t, region, v.key, child, Stored(s, t, v));
      result' := target.SetObject(v.key, child, v.setOk);
    }
    stored := result';
  }

  /** Merges `source` into `target`. Nothing that existed before is written except `target`, and
      the target ends as the walk's outcome says. `region` is any set that holds the source and
      everything below it and below the target, but not the target. */
  method MergeDictionaryIntoDictionary(source: Dictionary?, target: Dictionary?, walk: seq<Visit>,
                                       ghost s: Tree, ghost t: Tree, ghost region: set<Dictionary>)
    returns (result: bool, ghost region': set<Dictionary>)
    requires source != null && target != null ==>
               Unfolds(Dict(source), s, region) && Holds(target, t, region) && Covers(walk, s)
    modifies target
    ensures source == null || target == null ==> !result && (target != null ==> target.entries == old(target.entries))
    ensures source != null && target != null ==>
              && region <= region' && fresh(region' - region)
              && Holds(target, MergeAlong(s, t, walk).tree, region')
              && result == MergeAlong(s, t, walk).ok
    decreases s, 1
  {
    result, region' := false, region;
    if source == null || target == null { return; }
    var i := 0;
    ghost var cur := t;
    FirstTurn(s, t, walk);
    while i < |walk|
      invariant 0 <= i <= |walk|
      invariant region <= region' && fresh(region' - region)
      invariant Holds(target, cur, region') && OnTrack(s, t, walk, i, cur, result)
    {
      var v := walk[i];
      NextTurn(s, t, walk, i, cur, result);
      UnfoldsInMore(source.entries[v.key], s.kids[v.key], region, region');
      var stored;
      stored, result, region' := MergeEntry(source.entries[v.key], target, v, result, s, cur, region');
      if !stored { return; }
      cur := Node(cur.kids[v.key := Stored(s, cur, v)]);
      i := i + 1;
    }
    LastTurn(s, t, walk, cur, result);
  }

  // ---- The provider

  class Service {
    const properties: Dictionary
    var name: string

    constructor (properties: Dictionary, name: string)
      ensures this.properties == properties && this.name == name
    {
      this.properties := properties;
      this.name := name;
    }
  }

  /** The same merge on a service's property table, except that an iterator that cannot be made
      is noticed: the answer is then false and the table untouched. */
  method MergeDictionaryIntoProvider(provider: Service?, dictionaryToMerge: Dictionary?, iterates: bool,
                                     walk: seq<Visit>, ghost s: Tree, ghost t: Tree, ghost region: set<Dictionary>)
    returns (result: bool, ghost region': set<Dictionary>)
    requires provider != null && dictionaryToMerge != null ==>
               && Unfolds(Dict(dictionaryToMerge), s, region)
               && Holds(provider.properties, t, region) && Covers(walk, s)
    modifies if provider == null then {} else {provider.properties}
    ensures provider == null || dictionaryToMerge == null || !iterates ==> !result
    ensures provider != null && (dictionaryToMerge == null || !iterates) ==>
              provider.properties.entries == old(provider.properties.entries)
    ensures provider != null && dictionaryToMerge != null && iterates ==>
              && region <= region' && fresh(region' - region)
              && Holds(provider.properties, MergeAlong(s, t, walk).tree, region')
              && result == MergeAlong(s, t, walk).ok
  {
    result, region' := false, region;
    if provider == null || dictionaryToMerge == null || !iterates { return; }
    var i := 0;
    ghost var cur := t;
    FirstTurn(s, t, walk);
    while i < |walk|
      invariant 0 <= i <= |walk|
      invariant region <= region' && fresh(region' - region)
      invariant Holds(provider.properties, cur, region') && OnTrack(s, t, walk, i, cur, result)
    {
      var v := walk[i];
      NextTurn(s, t, walk, i, cur, result);
      UnfoldsInMore(dictionaryToMerge.entries[v.key], s.kids[v.key], region, region');
      var stored;
      stored, result, region' :=
        MergeEntry(dictionaryToMerge.entries[v.key], provider.properties, v, result, s, cur, region');
      if !stored { return; }
      cur := Node(cur.kids[v.key := Stored(s, cur, v)]);
      i := i + 1;
    }
    LastTurn(s, t, walk, cur, result);
  }

  // ---- probe

  const MERGE_PROPERTIES := "IOProviderMergeProperties"
  const VENDOR_ID := "DisplayVendorID"
  const PRODUCT_ID := "DisplayProductID"
  const CLASS_KEY := "IOClass"

  /** probe() casts the properties that it reads without checking, so they must be what it takes them
      for: in both tables the identifiers, and in the driver's the dictionary to merge. */
  ghost predicate IdsTyped(table: Tree)
  {
    && table.Node?
    && (VENDOR_ID in table.kids ==> IsNumber(table.kids[VENDOR_ID]))
    && (PRODUCT_ID in table.kids ==> IsNumber(table.kids[PRODUCT_ID]))
  }

  ghost predicate DriverTyped(table: Tree)
  {
    && IdsTyped(table)
    && (MERGE_PROPERTIES in table.kids ==>
          var dict := table.kids[MERGE_PROPERTIES];
          dict.Node? && (CLASS_KEY in dict.kids ==> IsText(dict.kids[CLASS_KEY])))
  }

  ghost predicate IsNumber(t: Tree) { t.Leaf? && t.value.Number? }

  ghost predicate IsText(t: Tree) { t.Leaf? && t.value.Text? }

  /** How many entries a shallow merge stores before one cannot be stored. */
  function StoresBefore(walk: seq<Visit>): (m: nat)
    ensures m <= |walk|
    ensures forall i :: 0 <= i < m ==> walk[i].setOk
    ensures m < |walk| ==> !walk[m].setOk
  {
    if walk == [] || !walk[0].setOk then 0 else 1 + StoresBefore(walk[1..])
  }

  /** The shallow merge has stored the source's entries under the keys before the failing one, and
      nothing else. */
  lemma {:induction false} OverriddenEntry(s: Tree, t: Tree, walk: seq<Visit>, k: string)
    requires t.Node? && Walks(walk, s)
    ensures Among(walk, StoresBefore(walk), k) ==>
              k in s.kids && Entry(Overridden(s, t, walk), k) == Something(s.kids[k])
    ensures !Among(walk, StoresBefore(walk), k) ==> Entry(Overridden(s, t, walk), k) == Entry(t, k)
    decreases |walk|
  {
    if walk == [] || !walk[0].setOk {
    } else {
      var v, rest, m := walk[0], walk[1..], StoresBefore(walk);
      assert VisitOf(v, s) && Walks(rest, s);
      OverriddenEntry(s, Node(t.kids[v.key := s.kids[v.key]]), rest, k);
      assert Among(walk, m, k) <==> v.key == k || Among(rest, m - 1, k) by {
        if i :| 0 <= i < m - 1 && rest[i].key == k { assert walk[i + 1].key == k; }
        if i :| 1 <= i < m && walk[i].key == k { assert rest[i - 1].key == k; }
      }
    }
  }

  lemma OverriddenWhole(s: Tree, t: Tree, walk: seq<Visit>)
    requires t.Node? && Covers(walk, s) && forall i :: 0 <= i < |walk| ==> walk[i].setOk
    ensures Overridden(s, t, walk) == Node(t.kids + s.kids)
  {
    assert StoresBefore(walk) == |walk|;
    forall k
      ensures Entry(Overridden(s, t, walk), k) == Entry(Node(t.kids + s.kids), k)
    {
      OverriddenEntry(s, t, walk, k);
      if k in s.kids { assert Among(walk, |walk|, k); }
    }
    SameEntries(Overridden(s, t, walk), Node(t.kids + s.kids));
  }

  /** The deep merge adds nothing to a complete shallow override, whatever it answers and whatever
      fails in it. */
  lemma CompleteOverride(s: Tree, t: Tree, shallow: seq<Visit>, deep: seq<Visit>)
    requires t.Node? && Covers(shallow, s) && Covers(deep, s)
    requires forall i :: 0 <= i < |shallow| ==> shallow[i].setOk
    ensures Overridden(s, t, shallow) == Node(t.kids + s.kids)
    ensures MergeAlong(s, Overridden(s, t, shallow), deep).tree == Node(t.kids + s.kids)
  {
    OverriddenWhole(s, t, shallow);
    OverrideUnchanged(s, t, deep);
  }

  /** The table that probe() leaves behind on a match. */
  ghost function Probed(s: Tree, t: Tree, shallow: seq<Visit>, iterates: bool, deep: seq<Visit>): Tree
    requires t.Node? && Covers(shallow, s) && Covers(deep, s)
  {
    var over := Overridden(s, t, shallow);
    if iterates then MergeAlong(s, over, deep).tree else over
  }

  /** What the shallow merge of probe() has stored stays, whatever the deep merge does and wherever either
      of the two stops. */
  lemma ProbedStored(s: Tree, t: Tree, shallow: seq<Visit>, iterates: bool, deep: seq<Visit>, k: string)
    requires t.Node? && Covers(shallow, s) && Covers(deep, s) && Among(shallow, StoresBefore(shallow), k)
    ensures k in s.kids && Entry(Probed(s, t, shallow, iterates, deep), k) == Something(s.kids[k])
  {
    var over := Overridden(s, t, shallow);
    OverriddenEntry(s, t, shallow, k);
    RunShape(s, over, deep, false);
    if i :| 0 <= i < Reached(s, over, deep) && deep[i].key == k {
      assert VisitOf(deep[i], s);
      assert Entry(MergeAlong(s, over, deep).tree, deep[i].key) == Something(Stored(s, over, deep[i]));
      MergedWithItself(s.kids[k]);
      if Shared(s, over, k) { SettledUnchanged(s.kids[k], s.kids[k], deep[i].nested); }
    }
  }

  /** After a shallow merge that stopped early, a deep merge with all copies made and the answer true brings
      in the rest: under the keys not yet stored the table ends with the deep merge of the two
      original entries, and keys of the table alone stay. */
  lemma ProbedRest(s: Tree, t: Tree, shallow: seq<Visit>, deep: seq<Visit>, k: string)
    requires t.Node? && Covers(shallow, s) && Covers(deep, s) && CopiesHold(deep)
    requires MergeAlong(s, Overridden(s, t, shallow), deep).ok
    ensures Probed(s, t, shallow, true, deep) == Merged(s, Overridden(s, t, shallow))
    ensures !Among(shallow, StoresBefore(shallow), k) ==>
              Entry(Probed(s, t, shallow, true, deep), k)
              == if k in s.kids then Something(MergedEntry(s, t, k)) else Entry(t, k)
  {
    CleanMerge(s, Overridden(s, t, shallow), deep);
    OverriddenEntry(s, t, shallow, k);
  }

  /** The provider takes the name that the dictionary gives as its class, if it gives one. */
  method Rename(provider: Service, dict: Dictionary, ghost s: Tree, ghost region: set<Dictionary>)
    requires Unfolds(Dict(dict), s, region) && (CLASS_KEY in s.kids ==> IsText(s.kids[CLASS_KEY]))
    modifies provider
    ensures provider.name == if CLASS_KEY in s.kids then s.kids[CLASS_KEY].value.text else old(provider.name)
  {
    assert CLASS_KEY in dict.entries ==> Unfolds(dict.entries[CLASS_KEY], s.kids[CLASS_KEY], region);
    if CLASS_KEY in dict.entries { provider.name := dict.entries[CLASS_KEY].value.text; }
  }

  /** The side effect of probe() on a match: shallow override, renaming, deep merge. */
  method MergeOnMatch(provider: Service, dict: Dictionary, shallow: seq<Visit>, iterates: bool, deep: seq<Visit>,
                      ghost s: Tree, ghost t: Tree, ghost region: set<Dictionary>)
    returns (ghost region': set<Dictionary>)
    requires Unfolds(Dict(dict), s, region) && Holds(provider.properties, t, region)
    requires CLASS_KEY in s.kids ==> IsText(s.kids[CLASS_KEY])
    requires Covers(shallow, s) && Covers(deep, s)
    modifies provider, provider.properties
    ensures region <= region' && fresh(region' - region)
    ensures Holds(provider.properties, Probed(s, t, shallow, iterates, deep), region')
    ensures provider.name == if CLASS_KEY in s.kids then s.kids[CLASS_KEY].value.text else old(provider.name)
  {
    var _ := provider.properties.Merge(dict, shallow, s, t, region);
    Rename(provider, dict, s, region);
    var _, more := MergeDictionaryIntoProvider(provider, dict, iterates, deep, s, Overridden(s, t, shallow), region);
    region' := if iterates then more else region;
  }

  /** probe() always fails, and touches the provider only on a match. */
  method Probe(driver: Service, provider: Service, shallow: seq<Visit>, iterates: bool, deep: seq<Visit>,
               ghost d: Tree, ghost t: Tree, ghost region: set<Dictionary>)
    returns (service: Service?, ghost region': set<Dictionary>)
    requires Unfolds(Dict(driver.properties), d, region) && Holds(provider.properties, t, region)
    requires DriverTyped(d) && IdsTyped(t)
    requires MERGE_PROPERTIES in d.kids ==>
               Covers(shallow, d.kids[MERGE_PROPERTIES]) && Covers(deep, d.kids[MERGE_PROPERTIES])
    modifies provider, provider.properties
    ensures service == null
    ensures region <= region' && fresh(region' - region)
    ensures
      || "IOProviderMergeProperties" !in d.kids
      || "DisplayVendorID" !in d.kids || "DisplayVendorID" !in t.kids
      || "DisplayProductID" !in d.kids || "DisplayProductID" !in t.kids
      || d.kids["DisplayVendorID"] != t.kids["DisplayVendorID"]
      || d.kids["DisplayProductID"] != t.kids["DisplayProductID"]
      ==> provider.properties.entries == old(provider.properties.entries) && provider.name == old(provider.name)
    ensures
      && "IOProviderMergeProperties" in d.kids
      && "DisplayVendorID" in d.kids && "DisplayVendorID" in t.kids
      && "DisplayProductID" in d.kids && "DisplayProductID" in t.kids
      && d.kids["DisplayVendorID"] == t.kids["DisplayVendorID"]
      && d.kids["DisplayProductID"] == t.kids["DisplayProductID"]
      ==> var s := d.kids["IOProviderMergeProperties"];
          && Holds(provider.properties, Probed(s, t, shallow, iterates, deep), region')
          && provider.name == (if "IOClass" in s.kids then s.kids["IOClass"].value.text else old(provider.name))
          && ((forall i :: 0 <= i < |shallow| ==> shallow[i].setOk) ==>
                Holds(provider.properties, Node(t.kids + s.kids), region'))
          && (iterates && CopiesHold(deep) && MergeAlong(s, Overridden(s, t, shallow), deep).ok ==>
                Holds(provider.properties, Merged(s, Overridden(s, t, shallow)), region'))
  {
    service, region' := null, region;
    var mine, theirs := driver.properties.entries, provider.properties.entries;
    if MERGE_PROPERTIES in mine && VENDOR_ID in theirs && PRODUCT_ID in theirs &&
       VENDOR_ID in mine && PRODUCT_ID in mine {
      assert Unfolds(mine[MERGE_PROPERTIES], d.kids[MERGE_PROPERTIES], region);
      assert Unfolds(mine[VENDOR_ID], d.kids[VENDOR_ID], region);
      assert Unfolds(mine[PRODUCT_ID], d.kids[PRODUCT_ID], region);
      assert Unfolds(theirs[VENDOR_ID], t.kids[VENDOR_ID], region);
      assert Unfolds(theirs[PRODUCT_ID], t.kids[PRODUCT_ID], region);
      if theirs[VENDOR_ID].value.number == mine[VENDOR_ID].value.number &&
         theirs[PRODUCT_ID].value.number == mine[PRODUCT_ID].value.number {
        region' := MergeOnMatch(provider, mine[MERGE_PROPERTIES].dictionary, shallow, iterates, deep,
                                d.kids[MERGE_PROPERTIES], t, region);
        if forall i :: 0 <= i < |shallow| ==> shallow[i].setOk {
          CompleteOverride(d.kids[MERGE_PROPERTIES], t, shallow, deep);
        }
        if CopiesHold(deep) {
          CleanMerge(d.kids[MERGE_PROPERTIES], Overridden(d.kids[MERGE_PROPERTIES], t, shallow), deep);
        }
      }
    }
  }
}
