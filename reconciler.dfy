/**
 * The host configuration that lets React's reconciler drive GTK widgets:
 * instance creation from a tag table, the refusal of bare text nodes, and
 * the props diff ("prepare update") handed to the commit phase.
 */
module Reconciler {
  import opened Wrappers
  import opened Sequences
  import opened Props

  /** A toolkit widget type the adapter can construct, such as `Gtk.Button`. */
  datatype Ctor = Ctor(typeName: string)

  /** A native widget handle: the tag it was created for, its type and the props it received. */
  datatype Instance = Instance(tag: string, ctor: Ctor, props: PropMap)

  /** The errors the adapter throws. */
  datatype Error =
    | UnknownComponent(tag: string)
    | UnsupportedTextInstance

  /** What `createReconciler` returns: the adapter over a fixed tag-to-widget-type table. */
  datatype Host = Host(components: map<string, Ctor>)

  /** The change descriptor `{ set, unset }` that prepare-update hands to commit-update. */
  datatype UpdatePayload = UpdatePayload(sets: seq<Entry>, unsets: seq<string>)

  // ----- instance creation -----

  /** Creates the native handle for a host node, or throws for a tag with no widget type. */
  function CreateInstance(host: Host, tag: string, props: PropMap): (r: Result<Instance, Error>)
    ensures r.Failure? <==> tag !in host.components
    ensures r.Failure? ==> r.error == UnknownComponent(tag)
    ensures r.Success? ==> r.value.tag == tag && r.value.ctor == host.components[tag]
  {
    if tag in host.components then Success(Instance(tag, host.components[tag], props))
    else Failure(UnknownComponent(tag))
  }

  /** Bare text nodes are never projected onto widgets; text goes in a label widget. */
  function CreateTextInstance(host: Host, text: string): (r: Result<Instance, Error>)
    ensures r.Failure? && r.error == UnsupportedTextInstance
  {
    Failure(UnsupportedTextInstance)
  }

  // ----- prepare update -----

  /** The `set` list: every non-children entry of the new props whose value is new or changed. */
  function SetEntries(oldProps: PropMap, newProps: PropMap): (s: seq<Entry>)
    ensures IsSubsequence(s, newProps)
    ensures forall e | e in s :: e.0 != CHILDREN_KEY && Get(oldProps, e.0) != Some(e.1)
  {
    if newProps == [] then []
    else
      var rest := SetEntries(oldProps, newProps[1..]);
      var (key, value) := newProps[0];
      if key != CHILDREN_KEY && Get(oldProps, key) != Some(value) then [newProps[0]] + rest else rest
  }

  /** The `unset` list: every non-children key of the old props that the new props lack. */
  function UnsetKeys(oldProps: PropMap, newProps: PropMap): (u: seq<string>)
    ensures IsSubsequence(u, Keys(oldProps))
    ensures forall k | k in u :: k != CHILDREN_KEY && Get(newProps, k).None?
  {
    if oldProps == [] then []
    else
      var rest := UnsetKeys(oldProps[1..], newProps);
      var key := oldProps[0].0;
      if key != CHILDREN_KEY && Get(newProps, key).None? then [key] + rest else rest
  }

  /**
   * React's prepareUpdate: `null` when nothing but children changed, otherwise the
   * descriptor of what to set and unset. The node and its type are not consulted.
   */
  function PrepareUpdate(instance: Option<Instance>, tag: Option<string>, oldProps: PropMap, newProps: PropMap)
    : (r: Option<UpdatePayload>)
    ensures r.Some? ==> r.value.sets != [] || r.value.unsets != []
  {
    var sets := SetEntries(oldProps, newProps);
    var unsets := UnsetKeys(oldProps, newProps);
    if sets == [] && unsets == [] then None else Some(UpdatePayload(sets, unsets))
  }

  // ----- what a descriptor means -----

  /** Assigns the `set` entries in order, later assignments overwriting earlier ones. */
  function ApplySets(props: map<string, Value>, sets: seq<Entry>): (r: map<string, Value>)
    ensures forall k | k in props && k !in Keys(sets) :: k in r && r[k] == props[k]
    ensures forall i | 0 <= i < |sets| && sets[i].0 !in Keys(sets[i + 1..]) :: sets[i].0 in r && r[sets[i].0] == sets[i].1
    ensures forall k | k in r :: k in props || k in Keys(sets)
    decreases sets
  {
    if sets == [] then props else ApplySets(props[sets[0].0 := sets[0].1], sets[1..])
  }

  /** The property view of a widget after committing `update`: sets assigned, unset keys cleared. */
  function Apply(props: map<string, Value>, update: Option<UpdatePayload>): (r: map<string, Value>)
    ensures update.None? ==> r == props
    ensures update.Some? ==> forall k | k in update.value.unsets :: k !in r
    ensures update.Some? ==> forall k | k in r :: k in props || k in Keys(update.value.sets)
    ensures update.Some? ==>
      forall k | k in props && k !in update.value.unsets && k !in Keys(update.value.sets) :: k in r && r[k] == props[k]
    ensures update.Some? ==>
      var d := update.value;
      forall i | 0 <= i < |d.sets| && d.sets[i].0 !in d.unsets && d.sets[i].0 !in Keys(d.sets[i + 1..]) ::
        d.sets[i].0 in r && r[d.sets[i].0] == d.sets[i].1
  {
    match update
    case None => props
    case Some(d) => ApplySets(props, d.sets) - (set k | k in d.unsets)
  }

  // ----- properties of prepare update -----

  lemma {:induction false} SetEntriesComplete(oldProps: PropMap, newProps: PropMap, e: Entry)
    requires e in newProps && e.0 != CHILDREN_KEY && Get(oldProps, e.0) != Some(e.1)
    ensures e in SetEntries(oldProps, newProps)
  {
    if newProps[0] != e {
      assert newProps == [newProps[0]] + newProps[1..];
      SetEntriesComplete(oldProps, newProps[1..], e);
    }
  }

  lemma {:induction false} UnsetKeysComplete(oldProps: PropMap, newProps: PropMap, key: string)
    requires key in Keys(oldProps) && key != CHILDREN_KEY && Get(newProps, key).None?
    ensures key in UnsetKeys(oldProps, newProps)
  {
    if oldProps[0].0 != key {
      assert Keys(oldProps) == [oldProps[0].0] + Keys(oldProps[1..]);
      UnsetKeysComplete(oldProps[1..], newProps, key);
    }
  }

  /** An entry is in `set` exactly when its key is not `children` and its value is new or changed. */
  lemma {:induction false} InSetIff(oldProps: PropMap, newProps: PropMap, e: Entry)
    requires DistinctKeys(newProps)
    ensures e in SetEntries(oldProps, newProps)
        <==> e.0 != CHILDREN_KEY && Get(newProps, e.0) == Some(e.1) && Get(oldProps, e.0) != Some(e.1)
  {
    if e in SetEntries(oldProps, newProps) {
      SubsequenceMembers(SetEntries(oldProps, newProps), newProps);
      GetMember(newProps, e);
    }
    if e.0 != CHILDREN_KEY && Get(newProps, e.0) == Some(e.1) && Get(oldProps, e.0) != Some(e.1) {
      SetEntriesComplete(oldProps, newProps, e);
    }
  }

  /** A key is in `unset` exactly when it is not `children`, the old props have it and the new ones do not. */
  lemma {:induction false} InUnsetIff(oldProps: PropMap, newProps: PropMap, key: string)
    ensures key in UnsetKeys(oldProps, newProps)
        <==> key != CHILDREN_KEY && key in Keys(oldProps) && key !in Keys(newProps)
  {
    if key in UnsetKeys(oldProps, newProps) {
      SubsequenceMembers(UnsetKeys(oldProps, newProps), Keys(oldProps));
    }
    if key != CHILDREN_KEY && key in Keys(oldProps) && key !in Keys(newProps) {
      UnsetKeysComplete(oldProps, newProps, key);
    }
  }

  /** `set` lists each key once and `unset` lists each key once. */
  lemma DescriptorKeysDistinct(oldProps: PropMap, newProps: PropMap)
    requires DistinctKeys(oldProps) && DistinctKeys(newProps)
    ensures DistinctKeys(SetEntries(oldProps, newProps))
    ensures NoDuplicates(UnsetKeys(oldProps, newProps))
  {
    SubsequenceKeys(SetEntries(oldProps, newProps), newProps);
    SubsequenceNoDuplicates(Keys(SetEntries(oldProps, newProps)), Keys(newProps));
    SubsequenceNoDuplicates(UnsetKeys(oldProps, newProps), Keys(oldProps));
  }

  /** No key is both set and unset, and `children` is never in either list. */
  lemma DescriptorDisjoint(instance: Option<Instance>, tag: Option<string>, oldProps: PropMap, newProps: PropMap)
    requires PrepareUpdate(instance, tag, oldProps, newProps).Some?
    ensures var d := PrepareUpdate(instance, tag, oldProps, newProps).value;
      && CHILDREN_KEY !in Keys(d.sets) && CHILDREN_KEY !in d.unsets
      && forall k | k in Keys(d.sets) :: k !in d.unsets
  {
    var d := PrepareUpdate(instance, tag, oldProps, newProps).value;
    forall k | k in Keys(d.sets)
      ensures k != CHILDREN_KEY && k !in d.unsets
    {
      var i :| 0 <= i < |d.sets| && Keys(d.sets)[i] == k;
      assert d.sets[i] in d.sets;
      SubsequenceMembers(d.sets, newProps);
      KeyOfMember(newProps, d.sets[i]);
    }
  }

  /** Props that agree on every key but `children`. */
  ghost predicate SameExceptChildren(oldProps: PropMap, newProps: PropMap)
  {
    forall k | k != CHILDREN_KEY :: Get(oldProps, k) == Get(newProps, k)
  }

  /** Prepare-update returns `null` exactly when the props agree on every key but `children`. */
  lemma NoUpdateIff(instance: Option<Instance>, tag: Option<string>, oldProps: PropMap, newProps: PropMap)
    requires DistinctKeys(newProps)
    ensures PrepareUpdate(instance, tag, oldProps, newProps).None? <==> SameExceptChildren(oldProps, newProps)
  {
    var sets, unsets := SetEntries(oldProps, newProps), UnsetKeys(oldProps, newProps);
    if SameExceptChildren(oldProps, newProps) {
      if sets != [] {
        InSetIff(oldProps, newProps, sets[0]);
      }
      if unsets != [] {
        InUnsetIff(oldProps, newProps, unsets[0]);
      }
    }
    if sets == [] && unsets == [] {
      forall k | k != CHILDREN_KEY
        ensures Get(oldProps, k) == Get(newProps, k)
      {
        match Get(newProps, k)
        case Some(v) =>
          InSetIff(oldProps, newProps, (k, v));
        case None =>
          InUnsetIff(oldProps, newProps, k);
      }
    }
  }

  /** One non-children prop changed (or was added) and nothing else did: `{ set: [[key, value]], unset: [] }`. */
  lemma SingleChangedProp(
    instance: Option<Instance>, tag: Option<string>, oldProps: PropMap, newProps: PropMap, key: string, value: Value)
    requires DistinctKeys(newProps)
    requires key != CHILDREN_KEY && Get(newProps, key) == Some(value) && Get(oldProps, key) != Some(value)
    requires forall k | k != CHILDREN_KEY && k != key :: Get(oldProps, k) == Get(newProps, k)
    ensures PrepareUpdate(instance, tag, oldProps, newProps) == Some(UpdatePayload([(key, value)], []))
  {
    var sets, unsets := SetEntries(oldProps, newProps), UnsetKeys(oldProps, newProps);
    forall e | e in sets
      ensures e == (key, value)
    {
      InSetIff(oldProps, newProps, e);
    }
    InSetIff(oldProps, newProps, (key, value));
    forall k | k in Keys(sets)
      ensures k == key
    {
      var i :| 0 <= i < |sets| && Keys(sets)[i] == k;
      assert sets[i] in sets;
    }
    KeyOfMember(sets, (key, value));
    SubsequenceKeys(sets, newProps);
    SubsequenceNoDuplicates(Keys(sets), Keys(newProps));
    SingletonOfNoDuplicates(Keys(sets), key);
    assert sets == [sets[0]] && sets[0] in sets;
    if unsets != [] {
      InUnsetIff(oldProps, newProps, unsets[0]);
    }
  }

  /** One non-children prop was removed and nothing else changed: `{ set: [], unset: [key] }`. */
  lemma RemovedProp(
    instance: Option<Instance>, tag: Option<string>, oldProps: PropMap, newProps: PropMap, key: string)
    requires DistinctKeys(oldProps) && DistinctKeys(newProps)
    requires key != CHILDREN_KEY && key in Keys(oldProps) && key !in Keys(newProps)
    requires forall k | k != CHILDREN_KEY && k != key :: Get(oldProps, k) == Get(newProps, k)
    ensures PrepareUpdate(instance, tag, oldProps, newProps) == Some(UpdatePayload([], [key]))
  {
    var sets, unsets := SetEntries(oldProps, newProps), UnsetKeys(oldProps, newProps);
    if sets != [] {
      InSetIff(oldProps, newProps, sets[0]);
    }
    forall k | k in unsets
      ensures k == key
    {
      InUnsetIff(oldProps, newProps, k);
    }
    InUnsetIff(oldProps, newProps, key);
    DescriptorKeysDistinct(oldProps, newProps);
    SingletonOfNoDuplicates(unsets, key);
  }

  /** The map view of an object with distinct keys is its first entry added to the map view of the rest. */
  lemma AsMapCons(sets: seq<Entry>)
    requires sets != [] && DistinctKeys(sets)
    ensures AsMap(sets) == AsMap(sets[1..])[sets[0].0 := sets[0].1]
  {
    assert Keys(sets)[1..] == Keys(sets[1..]);
    assert AsMap(sets).Keys == AsMap(sets[1..])[sets[0].0 := sets[0].1].Keys;
  }

  /** Assigning a key before a merge that does not mention it is the same as merging it in. */
  lemma MergeUpdate(props: map<string, Value>, m: map<string, Value>, key: string, value: Value)
    requires key !in m
    ensures props[key := value] + m == props + m[key := value]
  {
    assert (props[key := value] + m).Keys == (props + m[key := value]).Keys;
  }

  /** Assigning entries with distinct keys in order is the same as merging them in at once. */
  lemma {:induction false} ApplySetsMerges(props: map<string, Value>, sets: seq<Entry>)
    requires DistinctKeys(sets)
    ensures ApplySets(props, sets) == props + AsMap(sets)
    decreases sets
  {
    if sets == [] {
      assert AsMap(sets) == map[];
    } else {
      var (key, value) := sets[0];
      var rest := sets[1..];
      assert Keys(sets)[1..] == Keys(rest);
      ApplySetsMerges(props[key := value], rest);
      assert Get(rest, key).None?;
      AsMapCons(sets);
      MergeUpdate(props, AsMap(rest), key, value);
    }
  }

  /** On one key other than `children`, old props merged with `set` and stripped of `unset` give the new value. */
  lemma MergedAt(oldProps: PropMap, newProps: PropMap, k: string)
    requires DistinctKeys(oldProps) && DistinctKeys(newProps) && k != CHILDREN_KEY
    ensures var m := (AsMap(oldProps) + AsMap(SetEntries(oldProps, newProps)))
                       - (set x | x in UnsetKeys(oldProps, newProps));
      Get(newProps, k) == if k in m then Some(m[k]) else None
  {
    var sets := SetEntries(oldProps, newProps);
    DescriptorKeysDistinct(oldProps, newProps);
    InUnsetIff(oldProps, newProps, k);
    if Get(sets, k).Some? {
      InSetIff(oldProps, newProps, (k, Get(sets, k).value));
    }
    if Get(newProps, k).Some? {
      var v := Get(newProps, k).value;
      InSetIff(oldProps, newProps, (k, v));
      if (k, v) in sets {
        GetMember(sets, (k, v));
      }
    }
  }

  lemma MapsAgreeOffChildren(m: map<string, Value>, p: PropMap)
    requires forall k | k != CHILDREN_KEY :: Get(p, k) == if k in m then Some(m[k]) else None
    ensures m - {CHILDREN_KEY} == AsMap(p) - {CHILDREN_KEY}
  {
    var lhs, rhs := m - {CHILDREN_KEY}, AsMap(p) - {CHILDREN_KEY};
    assert lhs.Keys == rhs.Keys;
  }

  /**
   * Committing the descriptor that prepare-update computed turns the old props into
   * the new ones, on every key but `children`.
   */
  lemma PrepareThenApply(instance: Option<Instance>, tag: Option<string>, oldProps: PropMap, newProps: PropMap)
    requires DistinctKeys(oldProps) && DistinctKeys(newProps)
    ensures Apply(AsMap(oldProps), PrepareUpdate(instance, tag, oldProps, newProps)) - {CHILDREN_KEY}
         == AsMap(newProps) - {CHILDREN_KEY}
  {
    var update := PrepareUpdate(instance, tag, oldProps, newProps);
    var applied := Apply(AsMap(oldProps), update);
    if update.None? {
      NoUpdateIff(instance, tag, oldProps, newProps);
      forall k | k != CHILDREN_KEY
        ensures Get(newProps, k) == if k in applied then Some(applied[k]) else None
      {
        assert Get(oldProps, k) == Get(newProps, k);
      }
    } else {
      var sets := SetEntries(oldProps, newProps);
      DescriptorKeysDistinct(oldProps, newProps);
      ApplySetsMerges(AsMap(oldProps), sets);
      assert applied == (AsMap(oldProps) + AsMap(sets)) - (set x | x in UnsetKeys(oldProps, newProps));
      forall k | k != CHILDREN_KEY
        ensures Get(newProps, k) == if k in applied then Some(applied[k]) else None
      {
        MergedAt(oldProps, newProps, k);
      }
    }
    MapsAgreeOffChildren(applied, newProps);
  }

  /** The prepared update is the same whatever node and type it is prepared for. */
  lemma PrepareUpdateIgnoresNode(
    instance1: Option<Instance>, tag1: Option<string>, instance2: Option<Instance>, tag2: Option<string>,
    oldProps: PropMap, newProps: PropMap)
    ensures PrepareUpdate(instance1, tag1, oldProps, newProps) == PrepareUpdate(instance2, tag2, oldProps, newProps)
  {
  }
}
