/** JavaScript values and property objects, as the host adapter receives them from React. */
module Props {
  import opened Wrappers
  import opened Sequences

  /**
   * A JavaScript value under strict equality (`===`). Primitives compare by
   * value; objects, arrays and functions compare by identity, which `Ref`
   * stands for (two array literals with the same contents are two refs).
   */
  datatype Value =
    | Undefined
    | Null
    | Bool(b: bool)
    | Num(n: int)
    | Str(s: string)
    | Ref(id: nat)

  type Entry = (string, Value)

  /** A props object as the sequence of its own entries, in enumeration order. */
  type PropMap = seq<Entry>

  /** The reserved key under which React passes a node's children. */
  const CHILDREN_KEY: string := "children"

  /** The keys of `p`, in enumeration order. */
  function Keys(p: PropMap): (ks: seq<string>)
    ensures |ks| == |p|
    ensures forall i | 0 <= i < |p| :: ks[i] == p[i].0
  {
    if p == [] then [] else [p[0].0] + Keys(p[1..])
  }

  /** Every JavaScript object has distinct own keys. */
  predicate DistinctKeys(p: PropMap)
  {
    NoDuplicates(Keys(p))
  }

  /** Property lookup: `key in p ? p[key] : null`. */
  function Get(p: PropMap, key: string): (r: Option<Value>)
    ensures r.Some? <==> key in Keys(p)
    ensures r.Some? ==> (key, r.value) in p
  {
    if p == [] then None
    else if p[0].0 == key then Some(p[0].1)
    else Get(p[1..], key)
  }

  /** The props object as a finite map, the view a widget's properties are compared in. */
  function AsMap(p: PropMap): (m: map<string, Value>)
    ensures forall k :: Get(p, k) == if k in m then Some(m[k]) else None
  {
    map k | k in Keys(p) :: Get(p, k).value
  }

  lemma KeyOfMember(p: PropMap, e: Entry)
    requires e in p
    ensures e.0 in Keys(p)
  {
    var i :| 0 <= i < |p| && p[i] == e;
    assert Keys(p)[i] == e.0;
  }

  /** In an object with distinct keys, looking up the key of an entry finds that entry's value. */
  lemma {:induction false} GetMember(p: PropMap, e: Entry)
    requires DistinctKeys(p) && e in p
    ensures Get(p, e.0) == Some(e.1)
  {
    if p[0] != e {
      assert p == [p[0]] + p[1..];
      assert e in p[1..];
      assert Keys(p)[1..] == Keys(p[1..]);
      GetMember(p[1..], e);
    }
  }

  /** Deleting entries from an object keeps its keys in the same order. */
  lemma {:induction false} SubsequenceKeys(a: PropMap, b: PropMap)
    requires IsSubsequence(a, b)
    ensures IsSubsequence(Keys(a), Keys(b))
    decreases |b|
  {
    if a != [] {
      assert Keys(a)[1..] == Keys(a[1..]);
      assert Keys(b)[1..] == Keys(b[1..]);
      if a[0] == b[0] && IsSubsequence(a[1..], b[1..]) {
        SubsequenceKeys(a[1..], b[1..]);
      } else {
        SubsequenceKeys(a, b[1..]);
      }
    }
  }
}
