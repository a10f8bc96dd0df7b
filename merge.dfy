/**
 * The dictionary-building loops of src/purse.tsx: `mergeCSSProperties`,
 * `groupEntriesBy` and `groupCSSProperties`. Each is a method whose loops
 * write into an association list in place, proved equal to a fold that
 * states one loop step.
 */
module Merge {
  import opened Wrappers
  import opened Props

  // ---------------------------------------------------------------- merge

  /** `merged[selector] || {}`: the earlier nested declarations, or none. */
  function Existing(earlier: Option<Value>): Props
  {
    if earlier.Some? && earlier.value.Obj? then earlier.value.props else []
  }

  /** The value one step of `mergeCSSProperties` stores for a key that held `earlier`. */
  function MergeValue(earlier: Option<Value>, v: Value): Value
  {
    if v.Obj? then Obj(Spread(Existing(earlier), v.props)) else v
  }

  /** The inner loop over one group's keys. */
  function MergeGroup(acc: Props, g: Props): Props
    decreases |g|
  {
    if g == [] then acc
    else
      var prev := MergeGroup(acc, g[..|g| - 1]);
      var (key, value) := g[|g| - 1];
      Set(prev, key, MergeValue(Get(prev, key), value))
  }

  /** The outer loop over the groups, from the empty object. */
  function Merged(groups: seq<Props>): Props
    decreases |groups|
  {
    if groups == [] then [] else MergeGroup(Merged(groups[..|groups| - 1]), groups[|groups| - 1])
  }

  method MergeCSSProperties(groups: seq<Props>) returns (merged: Props)
    ensures merged == Merged(groups)
  {
    merged := [];
    for gi := 0 to |groups|
      invariant merged == Merged(groups[..gi])
    {
      var group := groups[gi];
      ghost var before := merged;
      for ki := 0 to |group|
        invariant merged == MergeGroup(before, group[..ki])
      {
        assert group[..ki + 1][..ki] == group[..ki];
        var (key, value) := group[ki];
        if value.Obj? {
          var existing := Get(merged, key);
          var existingStyles := if existing.Some? && existing.value.Obj? then existing.value.props else [];
          merged := Set(merged, key, Obj(Spread(existingStyles, value.props)));
        } else {
          merged := Set(merged, key, value);
        }
      }
      assert group[..|group|] == group;
      assert groups[..gi + 1][..gi] == groups[..gi];
    }
    assert groups[..|groups|] == groups;
  }

  /** Objects whose keys are distinct at every depth. */
  predicate AllGroupsWellFormed(groups: seq<Props>)
  {
    forall i :: 0 <= i < |groups| ==> AllWellFormed(groups[i])
  }

  lemma {:induction false} WellFormedValue(p: Props, i: nat)
    requires AllWellFormed(p) && i < |p|
    ensures WellFormed(p[i].1)
  {
  }

  /** One group merged into an object: keys keep their places, new keys follow, and nothing repeats. */
  lemma {:induction false} MergeGroupKeys(acc: Props, g: Props)
    requires DistinctKeys(acc)
    ensures DistinctKeys(MergeGroup(acc, g))
    ensures |acc| <= |MergeGroup(acc, g)| && Keys(MergeGroup(acc, g))[..|acc|] == Keys(acc)
    ensures forall k :: k in Keys(MergeGroup(acc, g)) <==> k in Keys(acc) || k in Keys(g)
    decreases |g|
  {
    if g != [] {
      var init := g[..|g| - 1];
      var prev := MergeGroup(acc, init);
      var key, value := g[|g| - 1].0, g[|g| - 1].1;
      MergeGroupKeys(acc, init);
      KeysLast(g);
      MergeKeysStep(acc, prev, Keys(init), key, MergeValue(Get(prev, key), value));
    }
  }

  lemma MergeKeysStep<V>(acc: seq<(string, V)>, prev: seq<(string, V)>, earlier: seq<string>, key: string, v: V)
    requires DistinctKeys(prev) && |acc| <= |prev| && Keys(prev)[..|acc|] == Keys(acc)
    requires forall k :: k in Keys(prev) <==> k in Keys(acc) || k in earlier
    ensures DistinctKeys(Set(prev, key, v))
    ensures |acc| <= |Set(prev, key, v)| && Keys(Set(prev, key, v))[..|acc|] == Keys(acc)
    ensures forall k :: k in Keys(Set(prev, key, v)) <==> k in Keys(acc) || k in earlier + [key]
  {
    SetKeysStep(acc, prev, key, v);
  }

  /** A write keeps an object's keys distinct, keeps a prefix of them in place, and adds only its key. */
  lemma SetKeysStep<V>(acc: seq<(string, V)>, prev: seq<(string, V)>, key: string, v: V)
    requires DistinctKeys(prev) && |acc| <= |prev| && Keys(prev)[..|acc|] == Keys(acc)
    ensures DistinctKeys(Set(prev, key, v))
    ensures |acc| <= |Set(prev, key, v)| && Keys(Set(prev, key, v))[..|acc|] == Keys(acc)
    ensures forall k :: k in Keys(Set(prev, key, v)) <==> k in Keys(prev) || k == key
  {
    SetKeys(prev, key, v);
    SetDistinct(prev, key, v);
    if key !in Keys(prev) {
      assert (Keys(prev) + [key])[..|acc|] == Keys(prev)[..|acc|];
    }
  }

  /**
   * What one group does to each key: a scalar overwrites, a nested object
   * is spread over the earlier nested declarations, and a key the group does
   * not hold keeps its value.
   */
  lemma {:induction false} MergeGroupGet(acc: Props, g: Props, k: string)
    requires DistinctKeys(acc) && DistinctKeys(g)
    ensures Get(MergeGroup(acc, g), k) ==
      if k in Keys(g) then Some(MergeValue(Get(acc, k), Get(g, k).value)) else Get(acc, k)
    decreases |g|
  {
    if g != [] {
      var init := g[..|g| - 1];
      var (key, value) := g[|g| - 1];
      assert init + [(key, value)] == g;
      DistinctSplit(g, |g| - 1);
      assert DistinctKeys(init);
      MergeGroupGet(acc, init, k);
      MergeGroupGet(acc, init, key);
      MergeGroupKeys(acc, init);
      MergeGroupGetStep(acc, init, MergeGroup(acc, init), key, value, k);
    }
  }

  lemma MergeGroupGetStep(acc: Props, init: Props, prev: Props, key: string, value: Value, k: string)
    requires DistinctKeys(prev) && key !in Keys(init)
    requires Get(prev, k) == if k in Keys(init) then Some(MergeValue(Get(acc, k), Get(init, k).value)) else Get(acc, k)
    requires Get(prev, key) == Get(acc, key)
    ensures var g := init + [(key, value)];
      Get(Set(prev, key, MergeValue(Get(prev, key), value)), k) ==
        if k in Keys(g) then Some(MergeValue(Get(acc, k), Get(g, k).value)) else Get(acc, k)
  {
    var g := init + [(key, value)];
    SetGet(prev, key, MergeValue(Get(prev, key), value), k);
    KeysAppend(init, [(key, value)]);
    if k == key {
      GetAfter(init, [(key, value)], key);
    } else if k in Keys(init) {
      GetPrefix(init, (key, value), k);
    }
  }

  /** Looking a key up past the end of the entries that hold it. */
  lemma {:induction false} GetPrefix<V>(p: seq<(string, V)>, x: (string, V), k: string)
    requires k in Keys(p)
    ensures Get(p + [x], k) == Get(p, k)
  {
    if p[0].0 != k {
      assert (p + [x])[1..] == p[1..] + [x];
      GetPrefix(p[1..], x, k);
    }
  }

  lemma {:induction false} MergedDistinct(groups: seq<Props>)
    ensures DistinctKeys(Merged(groups))
    decreases |groups|
  {
    if groups != [] {
      MergedDistinct(groups[..|groups| - 1]);
      MergeGroupKeys(Merged(groups[..|groups| - 1]), groups[|groups| - 1]);
    }
  }

  /**
   * Merging one more group: a scalar it holds replaces the earlier value; a
   * nested object it holds is spread over the earlier nested declarations,
   * its inner declarations winning; any other key is untouched. Keys already
   * present keep their positions.
   */
  lemma MergedLastGroup(groups: seq<Props>, g: Props, k: string)
    requires AllWellFormed(g)
    ensures var before, after := Merged(groups), Merged(groups + [g]);
      && |before| <= |after| && Keys(after)[..|before|] == Keys(before)
      && (k in Keys(g) && !Get(g, k).value.Obj? ==> Get(after, k) == Get(g, k))
      && (k in Keys(g) && Get(g, k).value.Obj? ==>
            Get(after, k) == Some(Obj(Spread(Existing(Get(before, k)), Get(g, k).value.props))))
      && (k !in Keys(g) ==> Get(after, k) == Get(before, k))
  {
    assert (groups + [g])[..|groups|] == groups;
    MergedDistinct(groups);
    MergeGroupKeys(Merged(groups), g);
    MergeGroupGet(Merged(groups), g, k);
  }

  /** Within a nested key, a later group's inner declaration wins over an earlier one. */
  lemma MergedNestedWins(groups: seq<Props>, g: Props, k: string, inner: string)
    requires AllGroupsWellFormed(groups) && AllWellFormed(g)
    requires k in Keys(g) && Get(g, k).value.Obj?
    ensures var after := Merged(groups + [g]);
      && Get(after, k).Some? && Get(after, k).value.Obj?
      && (inner in Keys(Get(g, k).value.props) ==>
            Get(Get(after, k).value.props, inner) == Get(Get(g, k).value.props, inner))
  {
    MergedLastGroup(groups, g, k);
    var i :| 0 <= i < |g| && g[i].0 == k;
    GetIndex(g, i);
    WellFormedValue(g, i);
    MergedNestedDistinct(groups, k);
    SpreadGet(Existing(Get(Merged(groups), k)), Get(g, k).value.props, inner);
  }

  /** Nested objects in a merge result hold each key once. */
  lemma {:induction false} MergedNestedDistinct(groups: seq<Props>, k: string)
    requires AllGroupsWellFormed(groups)
    ensures DistinctKeys(Existing(Get(Merged(groups), k)))
    decreases |groups|
  {
    if groups != [] {
      var init := groups[..|groups| - 1];
      var g := groups[|groups| - 1];
      assert init + [g] == groups;
      MergedNestedDistinct(init, k);
      MergedLastGroup(init, g, k);
      if k in Keys(g) && Get(g, k).value.Obj? {
        var i :| 0 <= i < |g| && g[i].0 == k;
        GetIndex(g, i);
        WellFormedValue(g, i);
        SpreadKeys(Existing(Get(Merged(init), k)), Get(g, k).value.props);
      }
    }
  }

  // ------------------------------------------------------------ groupEntriesBy

  /** One step of `groupEntriesBy`: add the entry to its group's object, creating the group if new. */
  function GroupEntry(grouped: seq<(string, Props)>, key: string, value: Value, group: string): seq<(string, Props)>
  {
    match Get(grouped, group)
    case Some(entries) => Set(grouped, group, Set(entries, key, value))
    case None => Set(grouped, group, [(key, value)])
  }

  /** The loop of `groupEntriesBy` as a fold over the entries. */
  function EntriesGroupedBy(obj: Props, groupOf: (string, Value) -> string): seq<(string, Props)>
    decreases |obj|
  {
    if obj == [] then []
    else
      var (key, value) := obj[|obj| - 1];
      GroupEntry(EntriesGroupedBy(obj[..|obj| - 1], groupOf), key, value, groupOf(key, value))
  }

  method GroupEntriesBy(obj: Props, groupOf: (string, Value) -> string)
    returns (groupedEntries: seq<(string, Props)>)
    ensures groupedEntries == EntriesGroupedBy(obj, groupOf)
  {
    groupedEntries := [];
    for i := 0 to |obj|
      invariant groupedEntries == EntriesGroupedBy(obj[..i], groupOf)
    {
      assert obj[..i + 1][..i] == obj[..i];
      var (key, value) := obj[i];
      var group := groupOf(key, value);
      var existing := Get(groupedEntries, group);
      if existing.Some? {
        groupedEntries := Set(groupedEntries, group, Set(existing.value, key, value));
      } else {
        groupedEntries := Set(groupedEntries, group, [(key, value)]);
      }
    }
    assert obj[..|obj|] == obj;
  }

  /** The entries of `obj` that `groupOf` sends to `group`, in order. */
  function EntriesIn(obj: Props, groupOf: (string, Value) -> string, group: string): Props
    decreases |obj|
  {
    if obj == [] then []
    else
      var rest := EntriesIn(obj[..|obj| - 1], groupOf, group);
      if groupOf(obj[|obj| - 1].0, obj[|obj| - 1].1) == group then rest + [obj[|obj| - 1]] else rest
  }

  lemma {:induction false} EntriesInKeys(obj: Props, groupOf: (string, Value) -> string, group: string, k: string)
    requires k in Keys(EntriesIn(obj, groupOf, group))
    ensures k in Keys(obj)
    decreases |obj|
  {
    var init := obj[..|obj| - 1];
    var rest := EntriesIn(init, groupOf, group);
    KeysAppend(init, [obj[|obj| - 1]]);
    assert init + [obj[|obj| - 1]] == obj;
    if k in Keys(rest) {
      EntriesInKeys(init, groupOf, group, k);
    } else {
      KeysAppend(rest, [obj[|obj| - 1]]);
    }
  }

  /**
   * Every group holds exactly the entries `groupOf` sends to it, in
   * their order in the object; a group is present exactly when some entry is
   * sent to it.
   */
  lemma {:induction false} GroupEntriesByContents(obj: Props, groupOf: (string, Value) -> string, group: string)
    requires DistinctKeys(obj)
    ensures DistinctKeys(EntriesGroupedBy(obj, groupOf))
    ensures Get(EntriesGroupedBy(obj, groupOf), group) ==
      if EntriesIn(obj, groupOf, group) == [] then None else Some(EntriesIn(obj, groupOf, group))
    decreases |obj|
  {
    if obj != [] {
      var init := obj[..|obj| - 1];
      var (key, value) := obj[|obj| - 1];
      var g := groupOf(key, value);
      var prev := EntriesGroupedBy(init, groupOf);
      assert DistinctKeys(init);
      GroupEntriesByContents(init, groupOf, group);
      GroupEntriesByContents(init, groupOf, g);
      var entries := EntriesIn(init, groupOf, g);
      assert key !in Keys(entries) by {
        if key in Keys(entries) {
          EntriesInKeys(init, groupOf, g, key);
        }
      }
      var newEntries := if Get(prev, g).Some? then Set(Get(prev, g).value, key, value) else [(key, value)];
      if Get(prev, g).Some? {
        SetAbsent(entries, key, value);
      }
      assert newEntries == entries + [(key, value)];
      SetGet(prev, g, newEntries, group);
      SetDistinct(prev, g, newEntries);
    }
  }

  // ------------------------------------------------------------ groupCSSProperties

  /** A group's declarations: `styleDeclarationsBySelector[selector] || {}`. */
  function Bucket(buckets: seq<(string, Props)>, selector: string): Props
  {
    match Get(buckets, selector)
    case Some(p) => p
    case None => []
  }

  /** One step of the first loop of `groupCSSProperties`. */
  function GroupStep(buckets: seq<(string, Props)>, key: string, value: Value): seq<(string, Props)>
  {
    if value.Null? || value.Undefined? then buckets
    else if value.Obj? then Set(buckets, key, Spread(Bucket(buckets, key), value.props))
    else Set(buckets, "", Set(Bucket(buckets, ""), key, value))
  }

  function GroupAll(buckets: seq<(string, Props)>, props: Props): seq<(string, Props)>
    decreases |props|
  {
    if props == [] then buckets
    else GroupStep(GroupAll(buckets, props[..|props| - 1]), props[|props| - 1].0, props[|props| - 1].1)
  }

  /** The second loop: every group left without declarations is deleted. */
  function DropEmpty(buckets: seq<(string, Props)>): seq<(string, Props)>
  {
    if buckets == [] then []
    else (if buckets[0].1 == [] then [] else [buckets[0]]) + DropEmpty(buckets[1..])
  }

  /** The groups of a style object, the base group `""` created first. */
  function Grouped(props: Props): seq<(string, Props)>
  {
    DropEmpty(GroupAll([("", [])], props))
  }

  method GroupCSSProperties(properties: Props) returns (groups: seq<(string, Props)>)
    ensures groups == Grouped(properties)
  {
    groups := CollectBySelector(properties);
    GroupAllDistinct(properties);
    groups := DeleteEmptyGroups(groups);
  }

  /** The first loop of `groupCSSProperties`: sort each key into its selector's group. */
  method CollectBySelector(properties: Props) returns (groups: seq<(string, Props)>)
    ensures groups == GroupAll([("", [])], properties)
  {
    groups := [("", [])];
    for i := 0 to |properties|
      invariant groups == GroupAll([("", [])], properties[..i])
    {
      GroupAllSnoc([("", [])], properties, i);
      var key, value := properties[i].0, properties[i].1;
      if value.Null? || value.Undefined? {
      } else if value.Obj? {
        var existingStyles := Bucket(groups, key);
        groups := Set(groups, key, Spread(existingStyles, value.props));
      } else {
        var base := Bucket(groups, "");
        groups := Set(groups, "", Set(base, key, value));
      }
    }
    assert properties[..|properties|] == properties;
  }

  /** The second loop of `groupCSSProperties`: delete every group left without declarations. */
  method DeleteEmptyGroups(full: seq<(string, Props)>) returns (groups: seq<(string, Props)>)
    requires DistinctKeys(full)
    ensures groups == DropEmpty(full)
  {
    groups := full;
    assert full[..0] == [] && full[0..] == full;
    for i := 0 to |full|
      invariant groups == DropEmpty(full[..i]) + full[i..]
    {
      var selector := full[i].0;
      DeleteEmptyFind(full, i);
      DeleteEmptyStep(full, i);
      var declarations := Get(groups, selector);
      if declarations.Some? && declarations.value == [] {
        groups := Delete(groups, selector);
      }
    }
    assert full[..|full|] == full;
  }

  lemma GroupAllSnoc(buckets: seq<(string, Props)>, props: Props, i: nat)
    requires i < |props|
    ensures GroupAll(buckets, props[..i + 1]) == GroupStep(GroupAll(buckets, props[..i]), props[i].0, props[i].1)
  {
    assert props[..i + 1][..i] == props[..i];
  }

  /** One step of the deletion loop finds the current group. */
  lemma DeleteEmptyFind(full: seq<(string, Props)>, i: nat)
    requires DistinctKeys(full) && i < |full|
    ensures Get(DropEmpty(full[..i]) + full[i..], full[i].0) == Some(full[i].1)
  {
    DropEmptyKeys(full[..i]);
    DistinctSplit(full, i);
    GetAfter(DropEmpty(full[..i]), full[i..], full[i].0);
  }

  /** One step of the deletion loop deletes the current group exactly when it is empty. */
  lemma DeleteEmptyStep(full: seq<(string, Props)>, i: nat)
    requires DistinctKeys(full) && i < |full|
    ensures full[i].1 == [] ==>
      Delete(DropEmpty(full[..i]) + full[i..], full[i].0) == DropEmpty(full[..i + 1]) + full[i + 1..]
    ensures full[i].1 != [] ==>
      DropEmpty(full[..i]) + full[i..] == DropEmpty(full[..i + 1]) + full[i + 1..]
  {
    var pre, x, post := full[..i], full[i], full[i + 1..];
    assert full[i..] == [x] + post;
    assert full[..i + 1] == pre + [x];
    if x.1 == [] {
      DistinctSplit(full, i);
      DropOne(pre, x, post);
    } else {
      KeepOne(pre, x, post);
    }
  }

  lemma DropOne(pre: seq<(string, Props)>, x: (string, Props), post: seq<(string, Props)>)
    requires x.1 == [] && x.0 !in Keys(pre) && x.0 !in Keys(post)
    ensures Delete(DropEmpty(pre) + ([x] + post), x.0) == DropEmpty(pre + [x]) + post
  {
    var kept := DropEmpty(pre);
    DropEmptyAppendEmpty(pre, x);
    DropEmptyNotIn(pre, x.0);
    DeleteOnly(kept, x, post);
    assert kept + [x] + post == kept + ([x] + post);
  }

  lemma DropEmptyAppendEmpty(pre: seq<(string, Props)>, x: (string, Props))
    requires x.1 == []
    ensures DropEmpty(pre + [x]) == DropEmpty(pre)
  {
    DropEmptyAppend(pre, [x]);
    assert [x][1..] == [];
  }

  lemma DropEmptyNotIn(a: seq<(string, Props)>, k: string)
    requires k !in Keys(a)
    ensures k !in Keys(DropEmpty(a))
  {
    DropEmptyKeys(a);
  }

  lemma KeepOne(pre: seq<(string, Props)>, x: (string, Props), post: seq<(string, Props)>)
    requires x.1 != []
    ensures DropEmpty(pre) + ([x] + post) == DropEmpty(pre + [x]) + post
  {
    DropEmptyAppend(pre, [x]);
    assert [x][1..] == [];
  }

  lemma {:induction false} GroupAllDistinct(props: Props)
    ensures DistinctKeys(GroupAll([("", [])], props))
    ensures |GroupAll([("", [])], props)| >= 1 && GroupAll([("", [])], props)[0].0 == ""
    decreases |props|
  {
    if props != [] {
      var prev := GroupAll([("", [])], props[..|props| - 1]);
      GroupAllDistinct(props[..|props| - 1]);
      var (key, value) := props[|props| - 1];
      if !(value.Null? || value.Undefined?) {
        var k := if value.Obj? then key else "";
        var b := if value.Obj? then Spread(Bucket(prev, key), value.props) else Set(Bucket(prev, ""), key, value);
        SetDistinct(prev, k, b);
        SetKeys(prev, k, b);
        assert Keys(prev)[0] == "";
      }
    }
  }

  lemma {:induction false} DropEmptyAppend(a: seq<(string, Props)>, b: seq<(string, Props)>)
    ensures DropEmpty(a + b) == DropEmpty(a) + DropEmpty(b)
  {
    if a == [] {
      assert a + b == b;
    } else {
      assert (a + b)[1..] == a[1..] + b;
      DropEmptyAppend(a[1..], b);
    }
  }

  lemma {:induction false} DropEmptyKeys(a: seq<(string, Props)>)
    ensures forall k :: k in Keys(DropEmpty(a)) ==> k in Keys(a)
    ensures forall i :: 0 <= i < |DropEmpty(a)| ==> DropEmpty(a)[i].1 != []
  {
    if a != [] {
      DropEmptyKeys(a[1..]);
      var head := if a[0].1 == [] then [] else [a[0]];
      KeysAppend(head, DropEmpty(a[1..]));
      assert Keys(a) == [a[0].0] + Keys(a[1..]);
      forall i | 0 <= i < |DropEmpty(a)| ensures DropEmpty(a)[i].1 != [] {
        if i >= |head| {
          assert DropEmpty(a)[i] == DropEmpty(a[1..])[i - |head|];
        }
      }
    }
  }

  /** In an object with distinct keys, the key at `i` stands neither before nor after `i`. */
  lemma DistinctSplit<V>(full: seq<(string, V)>, i: nat)
    requires DistinctKeys(full) && i < |full|
    ensures full[i].0 !in Keys(full[..i]) && full[i].0 !in Keys(full[i + 1..])
  {
    var before, after := Keys(full[..i]), Keys(full[i + 1..]);
    assert forall m :: 0 <= m < |before| ==> before[m] == full[m].0;
    assert forall m :: 0 <= m < |after| ==> after[m] == full[i + 1 + m].0;
  }

  lemma {:induction false} GetAfter<V>(a: seq<(string, V)>, b: seq<(string, V)>, k: string)
    requires k !in Keys(a)
    ensures Get(a + b, k) == Get(b, k)
  {
    if a == [] {
      assert a + b == b;
    } else {
      assert (a + b)[0] == a[0];
      assert (a + b)[1..] == a[1..] + b;
      assert Keys(a) == [a[0].0] + Keys(a[1..]);
      GetAfter(a[1..], b, k);
    }
  }
}

/**
 * What `groupCSSProperties` computes, stated without its loops: the base
 * group holds the top-level scalars that are neither null nor undefined,
 * and every nested key with a non-empty object gets its own group, in the
 * order of the input.
 */
module GroupSpec {
  import opened Wrappers
  import opened Props
  import opened Merge

  predicate IsScalar(v: Value)
  {
    !(v.Null? || v.Undefined? || v.Obj?)
  }

  /** The declarations of the base group. */
  function Scalars(props: Props): Props
    decreases |props|
  {
    if props == [] then []
    else
      var rest := Scalars(props[..|props| - 1]);
      if IsScalar(props[|props| - 1].1) then rest + [props[|props| - 1]] else rest
  }

  /** Every nested key with its object, empty or not. */
  function AllNested(props: Props): seq<(string, Props)>
    decreases |props|
  {
    if props == [] then []
    else
      var rest := AllNested(props[..|props| - 1]);
      var (key, value) := props[|props| - 1];
      if value.Obj? then rest + [(key, value.props)] else rest
  }

  /** Every nested key whose object is not empty. */
  function NonEmptyNested(props: Props): seq<(string, Props)>
    decreases |props|
  {
    if props == [] then []
    else
      var rest := NonEmptyNested(props[..|props| - 1]);
      var (key, value) := props[|props| - 1];
      if value.Obj? && value.props != [] then rest + [(key, value.props)] else rest
  }

  /** The groups of a well-formed style object, by the reading above. */
  function ExpectedGroups(props: Props): seq<(string, Props)>
  {
    (if Scalars(props) == [] then [] else [("", Scalars(props))]) + NonEmptyNested(props)
  }

  lemma {:induction false} ScalarsKeys(props: Props, k: string)
    requires k !in Keys(props)
    ensures k !in Keys(Scalars(props)) && k !in Keys(AllNested(props))
    decreases |props|
  {
    if props != [] {
      var init := props[..|props| - 1];
      var last := props[|props| - 1];
      assert init + [last] == props;
      KeysAppend(init, [last]);
      ScalarsKeys(init, k);
      KeysAppend(Scalars(init), [last]);
      KeysAppend(AllNested(init), [(last.0, if last.1.Obj? then last.1.props else [])]);
    }
  }

  lemma {:induction false} NonEmptyNestedDrop(props: Props)
    ensures DropEmpty(AllNested(props)) == NonEmptyNested(props)
    decreases |props|
  {
    if props != [] {
      var init := props[..|props| - 1];
      var (key, value) := props[|props| - 1];
      NonEmptyNestedDrop(init);
      if value.Obj? {
        DropEmptyAppend(AllNested(init), [(key, value.props)]);
        assert [(key, value.props)][1..] == [];
      }
    }
  }

  /** The first loop leaves the base group first, then every nested key in input order. */
  lemma {:induction false} GroupAllShape(props: Props)
    requires AllWellFormed(props) && "" !in Keys(props)
    ensures GroupAll([("", [])], props) == [("", Scalars(props))] + AllNested(props)
    decreases |props|
  {
    if props != [] {
      var init := props[..|props| - 1];
      var (key, value) := props[|props| - 1];
      assert AllWellFormed(init) by {
        assert forall i :: 0 <= i < |init| ==> init[i] == props[i];
      }
      assert "" !in Keys(init) by {
        forall m | 0 <= m < |init| ensures init[m].0 != "" {
          assert init[m] == props[m] && Keys(props)[m] == props[m].0;
        }
      }
      GroupAllShape(init);
      DistinctSplit(props, |props| - 1);
      ScalarsKeys(init, key);
      assert key != "" by { assert Keys(props)[|props| - 1] == key; }
      WellFormedValue(props, |props| - 1);
      GroupStepShape(Scalars(init), AllNested(init), key, value);
    }
  }

  /** One step of the first loop adds a scalar to the base group and a nested object after the others. */
  lemma GroupStepShape(s: Props, n: seq<(string, Props)>, key: string, value: Value)
    requires key != "" && key !in Keys(s) && key !in Keys(n) && WellFormed(value)
    ensures GroupStep([("", s)] + n, key, value) ==
      [("", if IsScalar(value) then s + [(key, value)] else s)] +
      (if value.Obj? then n + [(key, value.props)] else n)
  {
    var prev := [("", s)] + n;
    if value.Obj? {
      GetAfter([("", s)], n, key);
      assert Bucket(prev, key) == [];
      SpreadOntoEmpty(value.props);
      assert Keys(prev) == [""] + Keys(n);
      SetAbsent(prev, key, value.props);
    } else if IsScalar(value) {
      assert Bucket(prev, "") == s;
      SetAbsent(s, key, value);
      SetFirst(prev, s + [(key, value)]);
    }
  }

  /**
   * `groupCSSProperties` on a well-formed object: the base group, present
   * only when some scalar survives, then each non-empty nested key in input
   * order. Every group is non-empty and no key repeats.
   */
  lemma GroupedSpec(props: Props)
    requires AllWellFormed(props) && "" !in Keys(props)
    ensures Grouped(props) == ExpectedGroups(props)
  {
    GroupAllShape(props);
    var s := Scalars(props);
    DropEmptyAppend([("", s)], AllNested(props));
    assert [("", s)][1..] == [];
    NonEmptyNestedDrop(props);
  }

  /** A value that declares nothing: null, undefined, or an empty nested object. */
  predicate DeclaresNothing(v: Value)
  {
    v.Null? || v.Undefined? || (v.Obj? && v.props == [])
  }

  predicate AllBucketsEmpty(buckets: seq<(string, Props)>)
  {
    forall i :: 0 <= i < |buckets| ==> buckets[i].1 == []
  }

  /**
   * An object none of whose values declares anything, whatever its keys
   * (`""` included), has no groups at all: every bucket the first loop
   * creates stays empty and the second loop deletes it.
   */
  lemma GroupedNothingDeclared(props: Props)
    requires forall i :: 0 <= i < |props| ==> DeclaresNothing(props[i].1)
    ensures Grouped(props) == []
  {
    GroupAllNothingDeclared(props);
    DropEmptyAllEmpty(GroupAll([("", [])], props));
  }

  lemma {:induction false} GroupAllNothingDeclared(props: Props)
    requires forall i :: 0 <= i < |props| ==> DeclaresNothing(props[i].1)
    ensures AllBucketsEmpty(GroupAll([("", [])], props))
    decreases |props|
  {
    if props != [] {
      var init := props[..|props| - 1];
      assert forall i :: 0 <= i < |init| ==> init[i] == props[i];
      GroupAllNothingDeclared(init);
      GroupStepNothingDeclared(GroupAll([("", [])], init), props[|props| - 1].0, props[|props| - 1].1);
    }
  }

  lemma GroupStepNothingDeclared(buckets: seq<(string, Props)>, key: string, value: Value)
    requires AllBucketsEmpty(buckets) && DeclaresNothing(value)
    ensures AllBucketsEmpty(GroupStep(buckets, key, value))
  {
    if value.Obj? {
      BucketOfEmpty(buckets, key);
      SetEmptyBucket(buckets, key);
    }
  }

  lemma {:induction false} BucketOfEmpty(buckets: seq<(string, Props)>, key: string)
    requires AllBucketsEmpty(buckets)
    ensures Bucket(buckets, key) == []
  {
    if buckets != [] && buckets[0].0 != key {
      BucketOfEmpty(buckets[1..], key);
    }
  }

  lemma {:induction false} SetEmptyBucket(buckets: seq<(string, Props)>, key: string)
    requires AllBucketsEmpty(buckets)
    ensures AllBucketsEmpty(Set(buckets, key, []))
  {
    if buckets != [] && buckets[0].0 != key {
      SetEmptyBucket(buckets[1..], key);
      var r := Set(buckets, key, []);
      assert r == [buckets[0]] + Set(buckets[1..], key, []);
      assert forall i :: 0 < i < |r| ==> r[i] == Set(buckets[1..], key, [])[i - 1];
    }
  }

  lemma {:induction false} DropEmptyAllEmpty(buckets: seq<(string, Props)>)
    requires AllBucketsEmpty(buckets)
    ensures DropEmpty(buckets) == []
  {
    if buckets != [] {
      DropEmptyAllEmpty(buckets[1..]);
    }
  }

  /** Whatever the input: groups are non-empty, keys distinct, and the base group, if kept, first. */
  lemma GroupedShape(props: Props)
    ensures DistinctKeys(Grouped(props))
    ensures forall i :: 0 <= i < |Grouped(props)| ==> Grouped(props)[i].1 != []
    ensures forall i :: 0 < i < |Grouped(props)| ==> Grouped(props)[i].0 != ""
  {
    GroupAllDistinct(props);
    DropEmptyShape(GroupAll([("", [])], props));
  }

  lemma DropEmptyShape(full: seq<(string, Props)>)
    requires DistinctKeys(full) && |full| >= 1 && full[0].0 == ""
    ensures DistinctKeys(DropEmpty(full))
    ensures forall i :: 0 <= i < |DropEmpty(full)| ==> DropEmpty(full)[i].1 != []
    ensures forall i :: 0 < i < |DropEmpty(full)| ==> DropEmpty(full)[i].0 != ""
  {
    DropEmptyKeys(full);
    DropEmptyDistinct(full);
    var r := DropEmpty(full);
    var rest := DropEmpty(full[1..]);
    assert r == (if full[0].1 == [] then [] else [full[0]]) + rest;
    DistinctSplit(full, 0);
    DropEmptyKeys(full[1..]);
    forall i | 0 < i < |r| ensures r[i].0 != "" {
      var j := if full[0].1 == [] then i else i - 1;
      assert r[i] == rest[j];
      assert Keys(rest)[j] == rest[j].0;
    }
  }

  lemma {:induction false} DropEmptyDistinct(a: seq<(string, Props)>)
    requires DistinctKeys(a)
    ensures DistinctKeys(DropEmpty(a))
  {
    if a != [] {
      assert DistinctKeys(a[1..]);
      DropEmptyDistinct(a[1..]);
      DistinctSplit(a, 0);
      DropEmptyKeys(a[1..]);
      var r := DropEmpty(a);
      var rest := DropEmpty(a[1..]);
      if a[0].1 != [] {
        forall j | 0 < j < |r| ensures r[0].0 != r[j].0 {
          assert r[j] == rest[j - 1];
          assert Keys(rest)[j - 1] == rest[j - 1].0;
        }
      }
    }
  }
}
