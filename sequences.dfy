/** Order and uniqueness facts about sequences, used to state what the diff preserves. */
module Sequences {

  /** No element occurs twice in `s`. */
  predicate NoDuplicates<T(==)>(s: seq<T>)
  {
    if s == [] then true else s[0] !in s[1..] && NoDuplicates(s[1..])
  }

  /** `a` can be obtained from `b` by deleting elements: same elements, same relative order. */
  predicate IsSubsequence<T(==)>(a: seq<T>, b: seq<T>)
    decreases |b|
  {
    a == [] || (b != [] && ((a[0] == b[0] && IsSubsequence(a[1..], b[1..])) || IsSubsequence(a, b[1..])))
  }

  lemma {:induction false} SubsequenceMembers<T>(a: seq<T>, b: seq<T>)
    requires IsSubsequence(a, b)
    ensures forall x | x in a :: x in b
    decreases |b|
  {
    if a != [] {
      assert b == [b[0]] + b[1..];
      if a[0] == b[0] && IsSubsequence(a[1..], b[1..]) {
        SubsequenceMembers(a[1..], b[1..]);
        assert a == [a[0]] + a[1..];
      } else {
        SubsequenceMembers(a, b[1..]);
      }
    }
  }

  lemma {:induction false} SubsequenceNoDuplicates<T>(a: seq<T>, b: seq<T>)
    requires IsSubsequence(a, b) && NoDuplicates(b)
    ensures NoDuplicates(a)
    decreases |b|
  {
    if a != [] {
      if a[0] == b[0] && IsSubsequence(a[1..], b[1..]) {
        SubsequenceNoDuplicates(a[1..], b[1..]);
        SubsequenceMembers(a[1..], b[1..]);
      } else {
        SubsequenceNoDuplicates(a, b[1..]);
      }
    }
  }

  /** Proof step for SingletonOfNoDuplicates: a second element, if any, lies in the tail. */
  lemma SecondElement<T>(s: seq<T>)
    ensures |s| > 1 ==> s[1] in s && s[1] in s[1..]
  {
  }

  /** A duplicate-free sequence all of whose elements equal `x`, and which holds `x`, is `[x]`. */
  lemma SingletonOfNoDuplicates<T>(s: seq<T>, x: T)
    requires NoDuplicates(s) && x in s
    requires forall y | y in s :: y == x
    ensures s == [x]
  {
    assert s[0] in s;
    SecondElement(s);
    assert s == [s[0]] + s[1..];
  }
}
